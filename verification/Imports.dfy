/**
 Flattening a contract with its imports into one text: a depth-first reading of resources, each read once.
 */
module Imports {
  import opened Collections
  import opened Options
  import opened Text

  type Resources = map<string, seq<string>>

  /** One line of one resource in the output. */
  datatype Piece = Piece(resource: string, line: nat)

  /** What was written so far, which resources were opened and in which order, and the one that is missing, if any. */
  datatype Reading = Reading(pieces: seq<Piece>, entered: seq<string>, missing: Option<string>)

  // ------------------------------------------------------------------ lines

  predicate Space(c: char) {
    c == ' ' || c == '\t' || c == '\n' || c == '\r' || c == '\U{000B}' || c == '\U{000C}'
  }

  predicate LineEnd(c: char) {
    c == '\n' || c == '\r' || c == '\U{0085}' || c == '\U{2028}' || c == '\U{2029}'
  }

  function TrimLeft(s: string): string {
    if s != "" && Space(s[0]) then TrimLeft(s[1..]) else s
  }

  predicate NoLineEnd(s: string) {
    forall c | c in s :: !LineEnd(c)
  }

  /** Spaces, the word, and anything up to the end of the line. */
  predicate IsPragma(line: string) {
    var s := TrimLeft(line);
    "pragma" <= s && NoLineEnd(s[6..])
  }

  /** Spaces, the word, and somewhere behind it two quotes. */
  predicate IsImport(line: string) {
    var s := TrimLeft(line);
    && "import" <= s
    && var first := IndexOf(s[6..], '"');
    && first < |s[6..]|
    && var rest := s[6..][first + 1..];
    && var second := IndexOf(rest, '"');
    && second < |rest| && NoLineEnd(rest[second + 1..])
  }

  /** An import line has two quotes. */
  lemma ImportQuotes(line: string)
    requires IsImport(line)
    ensures IndexOf(line, '"') < LastIndexOf(line, '"') < |line|
  {
    hide IndexOf, LastIndexOf, TrimLeft, IsSuffix, IsImport;
    ImportParts(line);
    TrimIsSuffix(line);
    SuffixOn(TrimLeft(line), line, 6);
    var behind := TrimLeft(line)[6..];
    var first := IndexOf(behind, '"');
    QuotesBehind(line, behind, first, IndexOf(behind[first + 1..], '"'));
  }

  lemma QuotesBehind(line: string, behind: string, first: nat, second: nat)
    requires IsSuffix(behind, line)
    requires first < |behind| && behind[first] == '"'
             && second < |behind[first + 1..]| && behind[first + 1..][second] == '"'
    ensures IndexOf(line, '"') < LastIndexOf(line, '"') < |line|
  {
    hide IndexOf, LastIndexOf, IsSuffix;
    assert behind[first + 1..][second] == behind[first + 1 + second];
    SuffixAt(behind, line, first);
    SuffixAt(behind, line, first + 1 + second);
    TwoQuotes(line, |line| - |behind| + first, |line| - |behind| + first + 1 + second);
  }

  lemma ImportParts(line: string)
    requires IsImport(line)
    ensures var s := TrimLeft(line);
            && 6 <= |s| && IndexOf(s[6..], '"') < |s[6..]|
            && var rest := s[6..][IndexOf(s[6..], '"') + 1..];
            IndexOf(rest, '"') < |rest|
  {
    hide IndexOf, TrimLeft, NoLineEnd;
  }

  predicate IsSuffix(t: string, s: string) {
    |t| <= |s| && t == s[|s| - |t|..]
  }

  lemma SuffixOn(t: string, s: string, k: nat)
    requires IsSuffix(t, s) && k <= |t|
    ensures IsSuffix(t[k..], s)
  {
    assert s[|s| - |t|..][k..] == s[|s| - |t| + k..];
  }

  lemma SuffixAt(t: string, s: string, k: nat)
    requires IsSuffix(t, s) && k < |t|
    ensures |t| <= |s| && t[k] == s[|s| - |t| + k]
  {
    assert s[|s| - |t|..][k] == s[|s| - |t| + k];
  }

  lemma {:induction false} TrimIsSuffix(s: string)
    ensures IsSuffix(TrimLeft(s), s)
  {
    if s != "" && Space(s[0]) {
      TrimIsSuffix(s[1..]);
      var t := TrimLeft(s);
      assert s[1..][|s| - 1 - |t|..] == s[|s| - |t|..];
    }
  }

  lemma TwoQuotes(s: string, i: nat, j: nat)
    requires i < j < |s| && s[i] == '"' && s[j] == '"'
    ensures IndexOf(s, '"') <= i && j <= LastIndexOf(s, '"') < |s|
  {
    hide IndexOf, LastIndexOf;
    var first, last := IndexOf(s, '"'), LastIndexOf(s, '"');
    assert s[i] in s;
    forall k | 0 <= k < first ensures s[k] != '"' {
      assert s[..first][k] == s[k];
    }
    forall k | last < k < |s| ensures s[k] != '"' {
      assert s[last + 1..][k - last - 1] == s[k];
    }
  }

  /** The resource an import line names, next to the resource it is in. */
  function Target(resource: string, line: string): string
    requires IsImport(line)
  {
    ImportQuotes(line);
    var name := line[IndexOf(line, '"') + 1..LastIndexOf(line, '"')];
    if '/' in resource then
      resource[..LastIndexOf(resource, '/') + 1] + name
    else name
  }

  // ------------------------------------------------------------------ reading

  /** The resources not opened yet. */
  function Unread(files: Resources, r: Reading): set<string> {
    files.Keys - ToSet(r.entered)
  }

  lemma UnreadShrinks(files: Resources, r: Reading, t: Reading)
    requires ToSet(r.entered) <= ToSet(t.entered)
    ensures |Unread(files, t)| <= |Unread(files, r)|
  {
    Subset(Unread(files, t), Unread(files, r));
  }

  lemma {:induction false} Subset(a: set<string>, b: set<string>)
    requires a <= b
    ensures |a| <= |b|
    decreases a
  {
    if a != {} {
      var x :| x in a;
      Subset(a - {x}, b - {x});
    }
  }

  lemma EnterShrinks(files: Resources, r: Reading, name: string)
    requires name in files && name !in r.entered
    ensures |Unread(files, Enter(r, name))| < |Unread(files, r)|
  {
    assert Unread(files, Enter(r, name)) == Unread(files, r) - {name};
  }

  function Enter(r: Reading, name: string): Reading {
    r.(entered := r.entered + [name])
  }

  /** Reads a resource unless it was opened before; a resource that is missing ends the reading. */
  function ReadFile(files: Resources, name: string, root: bool, r: Reading): (t: Reading)
    ensures ToSet(r.entered) <= ToSet(t.entered)
    decreases |Unread(files, r)|, 0
  {
    if r.missing.Some? || name in r.entered then r
    else if name !in files then Enter(r, name).(missing := Some(name))
    else
      EnterShrinks(files, r, name);
      ReadLines(files, name, root, 0, Enter(r, name))
  }

  /** Reads a resource from a line on: pragmas are kept only in the root, imports are read in place. */
  function ReadLines(files: Resources, name: string, root: bool, i: nat, r: Reading): (t: Reading)
    requires name in files && i <= |files[name]|
    ensures ToSet(r.entered) <= ToSet(t.entered)
    decreases |Unread(files, r)|, |files[name]| - i + 1
  {
    if i == |files[name]| || r.missing.Some? then r
    else
      var t := ReadLine(files, name, root, i, r);
      UnreadShrinks(files, r, t);
      ReadLines(files, name, root, i + 1, t)
  }

  function ReadLine(files: Resources, name: string, root: bool, i: nat, r: Reading): (t: Reading)
    requires name in files && i < |files[name]|
    ensures ToSet(r.entered) <= ToSet(t.entered)
    decreases |Unread(files, r)|, |files[name]| - i
  {
    var line := files[name][i];
    if IsPragma(line) then if root then Write(r, name, i) else r
    else if IsImport(line) then ReadFile(files, Target(name, line), false, r)
    else Write(r, name, i)
  }

  function Write(r: Reading, name: string, i: nat): Reading {
    r.(pieces := r.pieces + [Piece(name, i)])
  }

  function Flattened(files: Resources, name: string): Reading {
    ReadFile(files, name, true, Reading([], [], None))
  }

  // ------------------------------------------------------------------ what a reading should give

  /** The line of a resource is an import of another. */
  predicate ImportsAt(files: Resources, a: string, i: nat, b: string) {
    a in files && i < |files[a]| && !IsPragma(files[a][i]) && IsImport(files[a][i]) && Target(a, files[a][i]) == b
  }

  predicate Edge(files: Resources, a: string, b: string) {
    a in files && exists i | 0 <= i < |files[a]| :: ImportsAt(files, a, i, b)
  }

  predicate Path(files: Resources, path: seq<string>) {
    forall i | 0 <= i < |path| - 1 :: Edge(files, path[i], path[i + 1])
  }

  ghost predicate Reaches(files: Resources, a: string, b: string) {
    exists path :: PathFrom(files, path, a, b)
  }

  predicate PathFrom(files: Resources, path: seq<string>, a: string, b: string) {
    path != [] && path[0] == a && path[|path| - 1] == b && Path(files, path)
  }

  /** The lines that are to be in the output. */
  predicate Kept(files: Resources, root: string, p: Piece) {
    && p.resource in files && p.line < |files[p.resource]|
    && var line := files[p.resource][p.line];
       if IsPragma(line) then p.resource == root else !IsImport(line)
  }

  lemma ReachesSelf(files: Resources, a: string)
    ensures Reaches(files, a, a)
  {
    assert PathFrom(files, [a], a, a);
  }

  lemma ReachesOn(files: Resources, a: string, b: string, c: string)
    requires Reaches(files, a, b) && Edge(files, b, c)
    ensures Reaches(files, a, c)
  {
    var path :| PathFrom(files, path, a, b);
    assert PathFrom(files, path + [c], a, c);
  }

  lemma {:induction false} ReachesOver(files: Resources, a: string, b: string, c: string)
    requires Reaches(files, a, b) && Reaches(files, b, c)
    ensures Reaches(files, a, c)
  {
    hide Edge;
    var p :| PathFrom(files, p, a, b);
    var q :| PathFrom(files, q, b, c);
    var r := p + q[1..];
    assert forall i | |p| <= i < |r| :: r[i] == q[i - |p| + 1];
    forall i | 0 <= i < |r| - 1 ensures Edge(files, r[i], r[i + 1]) {
      if i + 1 < |p| {
        assert Edge(files, p[i], p[i + 1]);
      } else {
        assert Edge(files, q[i - |p| + 1], q[i - |p| + 2]);
      }
    }
    assert PathFrom(files, r, a, c);
  }

  // ------------------------------------------------------------------ what holds while reading

  /** How many lines of a resource that was opened are done: those being read are on the stack. */
  function Done(files: Resources, stack: map<string, nat>, n: string): nat {
    if n in stack then stack[n] else if n in files then |files[n]| else 0
  }

  /** The lines of each resource come in their order, each once. */
  predicate InOrder(pieces: seq<Piece>) {
    forall a, b | 0 <= a < b < |pieces| && pieces[a].resource == pieces[b].resource :: pieces[a].line < pieces[b].line
  }

  /** Exactly the lines done so far that are to be kept were written. */
  ghost predicate Written(files: Resources, root: string, r: Reading, stack: map<string, nat>) {
    forall p :: p in r.pieces <==>
        Kept(files, root, p) && p.resource in r.entered && p.line < Done(files, stack, p.resource)
  }

  /** The imports on the lines done so far were opened. */
  ghost predicate Closed(files: Resources, r: Reading, stack: map<string, nat>) {
    forall n, i: nat, b | n in r.entered && ImportsAt(files, n, i, b) && i < Done(files, stack, n) :: b in r.entered
  }

  /**
   All that is imported above a line, directly or not, is there before it unless the import leads back to its
   resource.
   */
  ghost predicate Settled(files: Resources, root: string, before: seq<Piece>, p: Piece) {
    forall i: nat, b, q | ImportsAt(files, p.resource, i, b) && i < p.line && !Reaches(files, b, p.resource)
                     && Kept(files, root, q) && Reaches(files, b, q.resource) :: q in before
  }

  ghost predicate Ordered(files: Resources, root: string, pieces: seq<Piece>) {
    forall k | 0 <= k < |pieces| :: Settled(files, root, pieces[..k], pieces[k])
  }

  ghost predicate Opened(files: Resources, root: string, entered: seq<string>) {
    Distinct(entered) && forall n | n in entered :: n in files && Reaches(files, root, n)
  }

  ghost predicate OnStack(files: Resources, r: Reading, stack: map<string, nat>) {
    forall n | n in stack :: n in r.entered
  }

  ghost predicate Sound(files: Resources, root: string, r: Reading, stack: map<string, nat>) {
    && r.missing.None? && Opened(files, root, r.entered) && OnStack(files, r, stack)
    && InOrder(r.pieces) && Written(files, root, r, stack)
    && Closed(files, r, stack) && Ordered(files, root, r.pieces)
  }

  /** Everything on the stack leads to the resource being read. */
  ghost predicate LeadTo(files: Resources, stack: map<string, nat>, name: string) {
    forall n | n in stack :: Reaches(files, n, name)
  }

  /** What is imported above the line being read, and does not lead back, is done with all it imports. */
  lemma {:induction false} PathDone(files: Resources, r: Reading, stack: map<string, nat>, name: string,
                                    path: seq<string>)
    requires Closed(files, r, stack) && LeadTo(files, stack, name)
    requires path != [] && Path(files, path) && path[0] in r.entered && !Reaches(files, path[0], name)
    ensures path[|path| - 1] in r.entered && path[|path| - 1] !in stack
    decreases |path|
  {
    hide Reaches, ImportsAt;
    if |path| > 1 {
      var a, b := path[0], path[1];
      assert Edge(files, a, b);
      var i :| 0 <= i < |files[a]| && ImportsAt(files, a, i, b);
      if Reaches(files, b, name) {
        EdgeReaches(files, a, b, name);
      }
      var rest := path[1..];
      forall j | 0 <= j < |rest| - 1 ensures Edge(files, rest[j], rest[j + 1]) {
        assert Edge(files, path[j + 1], path[j + 2]);
      }
      PathDone(files, r, stack, name, rest);
    }
  }

  lemma EdgeReaches(files: Resources, a: string, b: string, c: string)
    requires Edge(files, a, b) && Reaches(files, b, c)
    ensures Reaches(files, a, c)
  {
    ReachesSelf(files, a);
    ReachesOn(files, a, a, b);
    ReachesOver(files, a, b, c);
  }

  lemma LineSettles(files: Resources, root: string, r: Reading, stack: map<string, nat>, name: string, i: nat)
    requires Written(files, root, r, stack) && Closed(files, r, stack) && LeadTo(files, stack, name)
    requires name in stack && stack[name] == i && name in r.entered
    ensures Settled(files, root, r.pieces, Piece(name, i))
  {
    hide Written, Closed, LeadTo, ImportsAt, Kept, Reaches;
    forall j: nat, b, q | ImportsAt(files, name, j, b) && j < i && !Reaches(files, b, name)
                     && Kept(files, root, q) && Reaches(files, b, q.resource) ensures q in r.pieces
    {
      OneSettles(files, root, r, stack, name, j, b, q);
    }
  }

  lemma OneSettles(files: Resources, root: string, r: Reading, stack: map<string, nat>, name: string, j: nat,
                   b: string, q: Piece)
    requires Written(files, root, r, stack) && Closed(files, r, stack) && LeadTo(files, stack, name)
    requires name in stack && j < stack[name] && name in r.entered
    requires ImportsAt(files, name, j, b) && !Reaches(files, b, name) && Kept(files, root, q)
             && Reaches(files, b, q.resource)
    ensures q in r.pieces
  {
    hide LeadTo, ImportsAt;
    assert b in r.entered;
    var path :| PathFrom(files, path, b, q.resource);
    PathDone(files, r, stack, name, path);
  }

  // ------------------------------------------------------------------ one line

  /** A line that is kept is written at the end. */
  lemma WriteKeeps(files: Resources, root: string, r: Reading, stack: map<string, nat>, name: string, i: nat)
    requires Sound(files, root, r, stack) && LeadTo(files, stack, name)
    requires name in stack && stack[name] == i && Kept(files, root, Piece(name, i))
    ensures Sound(files, root, Write(r, name, i), stack[name := i + 1])
  {
    hide LeadTo, Settled, ImportsAt, Reaches, Opened, Ordered, Written, Closed, InOrder;
    LineSettles(files, root, r, stack, name, i);
    OrderedOn(files, root, r.pieces, Piece(name, i));
    InOrderOn(files, root, r, stack, name, i);
    WrittenOn(files, root, r, stack, name, i);
    NotAnImport(files, root, name, i);
    ClosedOn(files, r, stack, name, i);
  }

  lemma OrderedOn(files: Resources, root: string, pieces: seq<Piece>, p: Piece)
    requires Ordered(files, root, pieces) && Settled(files, root, pieces, p)
    ensures Ordered(files, root, pieces + [p])
  {
    hide Settled;
    var all := pieces + [p];
    forall k | 0 <= k < |all| ensures Settled(files, root, all[..k], all[k]) {
      if k < |pieces| {
        assert all[..k] == pieces[..k];
      } else {
        assert all[..k] == pieces;
      }
    }
  }

  lemma InOrderOn(files: Resources, root: string, r: Reading, stack: map<string, nat>, name: string, i: nat)
    requires InOrder(r.pieces) && Written(files, root, r, stack) && name in stack && stack[name] == i
    ensures InOrder(Write(r, name, i).pieces)
  {
    hide Kept;
    forall k | 0 <= k < |r.pieces| && r.pieces[k].resource == name ensures r.pieces[k].line < i {
      assert r.pieces[k] in r.pieces;
    }
  }

  lemma WrittenOn(files: Resources, root: string, r: Reading, stack: map<string, nat>, name: string, i: nat)
    requires Written(files, root, r, stack) && OnStack(files, r, stack) && name in stack && stack[name] == i
    requires Kept(files, root, Piece(name, i))
    ensures Written(files, root, Write(r, name, i), stack[name := i + 1])
  {
    hide Kept;
  }

  lemma ClosedOn(files: Resources, r: Reading, stack: map<string, nat>, name: string, i: nat)
    requires Closed(files, r, stack) && name in stack && stack[name] == i && forall b :: !ImportsAt(files, name, i, b)
    ensures Closed(files, Write(r, name, i), stack[name := i + 1])
  {
    hide ImportsAt;
  }

  lemma NotAnImport(files: Resources, root: string, name: string, i: nat)
    requires Kept(files, root, Piece(name, i))
    ensures forall b :: !ImportsAt(files, name, i, b)
  {
  }

  /** A line that is not kept is passed over, if its import was opened. */
  lemma PassKeeps(files: Resources, root: string, r: Reading, stack: map<string, nat>, name: string, i: nat)
    requires Sound(files, root, r, stack)
    requires name in stack && stack[name] == i && !Kept(files, root, Piece(name, i))
    requires forall b | ImportsAt(files, name, i, b) :: b in r.entered
    ensures Sound(files, root, r, stack[name := i + 1])
  {
    hide Ordered, ImportsAt, Kept, Opened, InOrder, Distinct;
  }

  /** Opening a resource puts it on the stack. */
  lemma EnterKeeps(files: Resources, root: string, r: Reading, stack: map<string, nat>, name: string)
    requires Sound(files, root, r, stack) && name in files && name !in r.entered && Reaches(files, root, name)
    ensures Sound(files, root, Enter(r, name), stack[name := 0]) && name !in stack
  {
    hide Ordered, ImportsAt, Kept, Reaches;
    var t, stack' := Enter(r, name), stack[name := 0];
    assert forall n :: n in t.entered <==> n in r.entered || n == name;
    assert forall n | n != name :: Done(files, stack', n) == Done(files, stack, n);
  }

  /** A resource read to its end leaves the stack. */
  lemma LeaveKeeps(files: Resources, root: string, r: Reading, stack: map<string, nat>, name: string)
    requires name in files && name !in stack && Sound(files, root, r, stack[name := |files[name]|])
    ensures Sound(files, root, r, stack)
  {
    hide Ordered, ImportsAt, Kept, Opened, InOrder, Distinct;
    assert forall n :: Done(files, stack, n) == Done(files, stack[name := |files[name]|], n);
    assert forall n | n in stack :: n in stack[name := |files[name]|];
  }

  // ------------------------------------------------------------------ the whole reading

  /** A reading ends sound or with a resource that is missing. */
  ghost predicate Ends(files: Resources, root: string, t: Reading, stack: map<string, nat>) {
    match t.missing
    case None => Sound(files, root, t, stack)
    case Some(name) => name !in files && Reaches(files, root, name)
  }

  lemma {:induction false} FileKeeps(files: Resources, root: string, name: string, isRoot: bool, r: Reading,
                                     stack: map<string, nat>)
    requires Sound(files, root, r, stack) && LeadTo(files, stack, name) && Reaches(files, root, name)
    requires if isRoot then name == root else root in r.entered
    ensures var t := ReadFile(files, name, isRoot, r);
            Ends(files, root, t, stack) && (t.missing.None? ==> name in t.entered)
    decreases |Unread(files, r)|, 0
  {
    hide LeadTo, Ordered, Written, Closed, Opened, OnStack, InOrder, Distinct, ReadLines;
    if name in files && name !in r.entered {
      EnterKeeps(files, root, r, stack, name);
      EnterShrinks(files, r, name);
      var s := Enter(r, name);
      LeadToSelf(files, stack, name, 0);
      LinesKeep(files, root, name, isRoot, 0, s, stack[name := 0]);
      var t := ReadLines(files, name, isRoot, 0, s);
      assert stack[name := 0][name := |files[name]|] == stack[name := |files[name]|];
      if t.missing.None? {
        LeaveKeeps(files, root, t, stack, name);
        assert name in ToSet(s.entered);
        assert name in ToSet(t.entered);
      }
    }
  }

  lemma LeadToSelf(files: Resources, stack: map<string, nat>, name: string, i: nat)
    requires LeadTo(files, stack, name)
    ensures LeadTo(files, stack[name := i], name)
  {
    hide Reaches;
    ReachesSelf(files, name);
  }

  lemma {:induction false} LinesKeep(files: Resources, root: string, name: string, isRoot: bool, i: nat, r: Reading,
                                     stack: map<string, nat>)
    requires Sound(files, root, r, stack) && LeadTo(files, stack, name) && Reaches(files, root, name)
    requires name in files && i <= |files[name]| && name in stack && stack[name] == i
    requires isRoot <==> name == root
    requires root in r.entered
    ensures Ends(files, root, ReadLines(files, name, isRoot, i, r), stack[name := |files[name]|])
    decreases |Unread(files, r)|, |files[name]| - i + 1
  {
    hide LeadTo, Ordered, Written, Closed, Opened, OnStack, InOrder, Distinct, ReadLine, Sound;
    if i == |files[name]| {
      assert stack[name := |files[name]|] == stack;
      SoundMissesNone(files, root, r, stack);
    } else {
      SoundMissesNone(files, root, r, stack);
      var t := ReadLine(files, name, isRoot, i, r);
      LineKeeps(files, root, name, isRoot, i, r, stack);
      UnreadShrinks(files, r, t);
      if t.missing.None? {
        assert root in ToSet(r.entered);
        assert root in ToSet(t.entered);
        LeadToSelf(files, stack, name, i + 1);
        LinesKeep(files, root, name, isRoot, i + 1, t, stack[name := i + 1]);
        assert stack[name := i + 1][name := |files[name]|] == stack[name := |files[name]|];
      }
    }
  }

  lemma SoundMissesNone(files: Resources, root: string, r: Reading, stack: map<string, nat>)
    requires Sound(files, root, r, stack)
    ensures r.missing.None?
  {
  }

  lemma {:induction false} LineKeeps(files: Resources, root: string, name: string, isRoot: bool, i: nat, r: Reading,
                                     stack: map<string, nat>)
    requires Sound(files, root, r, stack) && LeadTo(files, stack, name) && Reaches(files, root, name)
    requires name in files && i < |files[name]| && name in stack && stack[name] == i
    requires isRoot <==> name == root
    requires root in r.entered
    ensures Ends(files, root, ReadLine(files, name, isRoot, i, r), stack[name := i + 1])
    decreases |Unread(files, r)|, |files[name]| - i
  {
    hide LeadTo, Ordered, Written, Closed, Opened, OnStack, InOrder, Distinct, ReadFile, Reaches;
    var line := files[name][i];
    if Kept(files, root, Piece(name, i)) {
      WriteKeeps(files, root, r, stack, name, i);
    } else if IsPragma(line) {
      PassKeeps(files, root, r, stack, name, i);
    } else {
      var target := Target(name, line);
      assert ImportsAt(files, name, i, target);
      LeadToTarget(files, root, stack, name, i, target);
      FileKeeps(files, root, target, false, r, stack);
      var t := ReadFile(files, target, false, r);
      if t.missing.None? {
        PassKeeps(files, root, t, stack, name, i);
      }
    }
  }

  lemma LeadToTarget(files: Resources, root: string, stack: map<string, nat>, name: string, i: nat, target: string)
    requires LeadTo(files, stack, name) && Reaches(files, root, name) && ImportsAt(files, name, i, target)
    ensures LeadTo(files, stack, target) && Reaches(files, root, target)
  {
    hide Reaches;
    assert Edge(files, name, target);
    ReachesOn(files, root, name, target);
    forall n | n in stack ensures Reaches(files, n, target) {
      ReachesOn(files, n, name, target);
    }
  }

  lemma StartSound(files: Resources, root: string)
    ensures Sound(files, root, Reading([], [], None), map[]) && LeadTo(files, map[], root)
  {
  }

  lemma FlattenedEnds(files: Resources, root: string)
    ensures var t := Flattened(files, root); Ends(files, root, t, map[]) && (t.missing.None? ==> root in t.entered)
  {
    hide Sound, LeadTo, Ends, ReadFile;
    StartSound(files, root);
    ReachesSelf(files, root);
    FileKeeps(files, root, root, true, Reading([], [], None), map[]);
  }

  /** Reading fails exactly when a resource that the root leads to is missing, and then names such a one. */
  lemma FailsIff(files: Resources, root: string)
    ensures var t := Flattened(files, root);
            && (t.missing.None? <==> forall n | Reaches(files, root, n) :: n in files)
            && (t.missing.Some? ==> t.missing.value !in files && Reaches(files, root, t.missing.value))
  {
    hide Flattened, Ordered, Written, OnStack, InOrder, Distinct, Closed;
    var t := Flattened(files, root);
    FlattenedEnds(files, root);
    if t.missing.None? {
      forall n | Reaches(files, root, n) ensures n in files {
        EntersAll(files, root, t, n);
      }
    }
  }

  lemma EntersAll(files: Resources, root: string, t: Reading, n: string)
    requires Sound(files, root, t, map[]) && root in t.entered && Reaches(files, root, n)
    ensures n in t.entered && n in files
  {
    hide Ordered, Written, OnStack, InOrder, Distinct;
    var path :| PathFrom(files, path, root, n);
    PathEntered(files, t, path);
  }

  lemma {:induction false} PathEntered(files: Resources, t: Reading, path: seq<string>)
    requires Closed(files, t, map[]) && path != [] && Path(files, path) && path[0] in t.entered
    ensures path[|path| - 1] in t.entered
    decreases |path|
  {
    hide ImportsAt;
    if |path| > 1 {
      assert Edge(files, path[0], path[1]);
      var i :| 0 <= i < |files[path[0]]| && ImportsAt(files, path[0], i, path[1]);
      var rest := path[1..];
      forall j | 0 <= j < |rest| - 1 ensures Edge(files, rest[j], rest[j + 1]) {
        assert Edge(files, path[j + 1], path[j + 2]);
      }
      PathEntered(files, t, rest);
    }
  }

  /** Each resource the root leads to is opened exactly once, and no other. */
  lemma OpensEachOnce(files: Resources, root: string)
    requires Flattened(files, root).missing.None?
    ensures var t := Flattened(files, root);
            Distinct(t.entered) && forall n :: n in t.entered <==> Reaches(files, root, n)
  {
    hide Flattened, Ordered, Written, OnStack, Closed, InOrder, Distinct;
    var t := Flattened(files, root);
    FlattenedEnds(files, root);
    forall n ensures n in t.entered <==> Reaches(files, root, n) {
      if Reaches(files, root, n) {
        EntersAll(files, root, t, n);
      }
    }
  }

  /** Each line to be kept of each of these resources is written exactly once, in their order, and nothing else. */
  lemma WritesEachOnce(files: Resources, root: string)
    requires Flattened(files, root).missing.None?
    ensures var t := Flattened(files, root);
            InOrder(t.pieces) && Distinct(t.pieces) && forall p :: p in t.pieces <==>
                  Kept(files, root, p) && Reaches(files, root, p.resource)
  {
    hide Flattened, Ordered, OnStack, Closed, Opened, Kept;
    var t := Flattened(files, root);
    FlattenedEnds(files, root);
    OpensEachOnce(files, root);
    forall p ensures p in t.pieces <==> Kept(files, root, p) && Reaches(files, root, p.resource) {
      KeptIsIn(files, root, p);
    }
  }

  lemma KeptIsIn(files: Resources, root: string, p: Piece)
    ensures Kept(files, root, p) ==> p.resource in files && p.line < Done(files, map[], p.resource)
  {
  }

  /**
   All text of an imported resource, and of everything it imports, comes before the text below the import
   line, unless the import leads back to the resource it is in.
   */
  lemma ImportsComeFirst(files: Resources, root: string, a: nat, b: nat, i: nat, imported: string)
    requires var t := Flattened(files, root);
             && t.missing.None? && a < |t.pieces| && b < |t.pieces|
             && ImportsAt(files, t.pieces[b].resource, i, imported) && i < t.pieces[b].line
             && !Reaches(files, imported, t.pieces[b].resource)
             && Reaches(files, imported, t.pieces[a].resource)
    ensures a < b
  {
    hide Flattened, Written, OnStack, Closed, Opened, Kept, ImportsAt, Reaches;
    var t := Flattened(files, root);
    FlattenedEnds(files, root);
    WritesEachOnce(files, root);
    assert t.pieces[a] in t.pieces;
    assert Settled(files, root, t.pieces[..b], t.pieces[b]);
    assert t.pieces[a] in t.pieces[..b];
    var k :| 0 <= k < b && t.pieces[k] == t.pieces[a];
  }

  ghost predicate Acyclic(files: Resources) {
    forall a, b | Edge(files, a, b) :: !Reaches(files, b, a)
  }

  /** Without cycles that holds of every import line. */
  lemma AcyclicImportsComeFirst(files: Resources, root: string, a: nat, b: nat, i: nat)
    requires Acyclic(files)
    requires var t := Flattened(files, root);
             && t.missing.None? && a < |t.pieces| && b < |t.pieces|
             && ImportsAt(files, t.pieces[b].resource, i, t.pieces[a].resource) && i < t.pieces[b].line
    ensures a < b
  {
    hide Flattened, Reaches;
    var t := Flattened(files, root);
    assert Edge(files, t.pieces[b].resource, t.pieces[a].resource);
    ReachesSelf(files, t.pieces[a].resource);
    ImportsComeFirst(files, root, a, b, i, t.pieces[a].resource);
  }

  // ------------------------------------------------------------------ the order with cycles

  /** For each resource that a reading opens: the resources being read at that time, with their lines. */
  function FileStacks(files: Resources, name: string, r: Reading, stack: map<string, nat>)
    : map<string, map<string, nat>>
    decreases |Unread(files, r)|, 0
  {
    if r.missing.Some? || name in r.entered || name !in files then map[]
    else
      EnterShrinks(files, r, name);
      map[name := stack] + LinesStacks(files, name, 0, Enter(r, name), stack, false)
  }

  function LinesStacks(files: Resources, name: string, i: nat, r: Reading, stack: map<string, nat>, root: bool)
    : map<string, map<string, nat>>
    requires name in files && i <= |files[name]|
    decreases |Unread(files, r)|, |files[name]| - i + 1
  {
    if i == |files[name]| || r.missing.Some? then map[]
    else
      var t := ReadLine(files, name, root, i, r);
      UnreadShrinks(files, r, t);
      LineStacks(files, name, i, r, stack) + LinesStacks(files, name, i + 1, t, stack, root)
  }

  function LineStacks(files: Resources, name: string, i: nat, r: Reading, stack: map<string, nat>)
    : map<string, map<string, nat>>
    requires name in files && i < |files[name]|
    decreases |Unread(files, r)|, |files[name]| - i
  {
    var line := files[name][i];
    if IsPragma(line) || !IsImport(line) then map[]
    else FileStacks(files, Target(name, line), r, stack[name := i])
  }

  /** Where a reading from the root stands when it opens each resource. */
  function Stacks(files: Resources, root: string): map<string, map<string, nat>> {
    if root !in files then map[]
    else map[root := map[]] + LinesStacks(files, root, 0, Enter(Reading([], [], None), root), map[], true)
  }

  /** Of what a line's resource imports above it, exactly the lines done by then are in front of it. */
  ghost predicate Timed(files: Resources, root: string, before: seq<Piece>, p: Piece, stack: map<string, nat>) {
    forall i: nat, q: Piece | ImportsAt(files, p.resource, i, q.resource) && i < p.line && Kept(files, root, q) ::
      q in before <==> q.line < Done(files, stack[p.resource := p.line], q.resource)
  }

  /** What a reading adds to the pieces is timed by the stacks. */
  ghost predicate Times(files: Resources, root: string, r: Reading, t: Reading, stacks: map<string, map<string, nat>>) {
    && r.pieces <= t.pieces
    && forall k | |r.pieces| <= k < |t.pieces| ::
         t.pieces[k].resource in stacks
         && Timed(files, root, t.pieces[..k], t.pieces[k], stacks[t.pieces[k].resource])
  }

  /** The stacks of a reading are those of resources it opens. */
  ghost predicate Fresh(r: Reading, t: Reading, stacks: map<string, map<string, nat>>) {
    forall n | n in stacks :: n in t.entered && n !in r.entered
  }

  lemma TimesOn(files: Resources, root: string, r: Reading, t: Reading, u: Reading,
                some: map<string, map<string, nat>>, more: map<string, map<string, nat>>)
    requires Times(files, root, r, t, some) && Times(files, root, t, u, more)
    requires forall n | n in more :: n !in some || some[n] == more[n]
    ensures Times(files, root, r, u, some + more)
  {
    hide Timed;
    forall k | |r.pieces| <= k < |u.pieces|
      ensures u.pieces[k].resource in some + more
      ensures Timed(files, root, u.pieces[..k], u.pieces[k], (some + more)[u.pieces[k].resource])
    {
      if k < |t.pieces| {
        assert u.pieces[k] == t.pieces[k] && u.pieces[..k] == t.pieces[..k];
      }
    }
  }

  lemma LineIsTimed(files: Resources, root: string, r: Reading, stack: map<string, nat>, name: string, i: nat)
    requires Written(files, root, r, stack[name := i]) && Closed(files, r, stack[name := i]) && name in r.entered
    ensures Times(files, root, r, Write(r, name, i), map[name := stack])
  {
    hide Kept, ImportsAt;
    var t := Write(r, name, i);
    assert t.pieces[..|r.pieces|] == r.pieces;
  }

  lemma NothingTimed(files: Resources, root: string, r: Reading, stacks: map<string, map<string, nat>>)
    ensures Times(files, root, r, r, stacks)
  {
  }

  lemma NothingFresh(r: Reading)
    ensures Fresh(r, r, map[])
  {
  }

  lemma {:induction false} FileTimed(files: Resources, root: string, name: string, r: Reading, stack: map<string, nat>)
    requires Sound(files, root, r, stack) && LeadTo(files, stack, name) && Reaches(files, root, name)
    requires root in r.entered
    ensures var t := ReadFile(files, name, false, r);
            t.missing.None? ==>
              Times(files, root, r, t, FileStacks(files, name, r, stack))
                  && Fresh(r, t, FileStacks(files, name, r, stack))
    decreases |Unread(files, r)|, 0
  {
    hide LeadTo, Ordered, Written, Closed, Opened, OnStack, InOrder, Distinct, ReadLines, LinesStacks, Times, Reaches;
    if name in files && name !in r.entered {
      EnterKeeps(files, root, r, stack, name);
      EnterShrinks(files, r, name);
      LeadToSelf(files, stack, name, 0);
      LinesTimed(files, root, name, false, 0, Enter(r, name), stack);
      var t, stacks := ReadLines(files, name, false, 0, Enter(r, name)),
          LinesStacks(files, name, 0, Enter(r, name), stack, false);
      if t.missing.None? {
        EnteredTimes(files, root, r, name, t, map[name := stack] + stacks);
        EnteredFresh(r, name, t, stack, stacks);
      }
    } else {
      NothingTimed(files, root, r, map[]);
    }
  }

  lemma EnteredFresh(r: Reading, name: string, t: Reading, stack: map<string, nat>, stacks: map<string, map<string,
                     nat>>)
    requires Fresh(Enter(r, name), t, stacks) && name !in r.entered
    requires ToSet(Enter(r, name).entered) <= ToSet(t.entered)
    ensures Fresh(r, t, map[name := stack] + stacks)
  {
    assert name in Enter(r, name).entered;
    assert name in ToSet(Enter(r, name).entered);
    assert forall n | n in r.entered :: n in Enter(r, name).entered;
  }

  lemma EnteredTimes(files: Resources, root: string, r: Reading, name: string, t: Reading,
                     stacks: map<string, map<string, nat>>)
    requires Times(files, root, Enter(r, name), t, stacks)
    ensures Times(files, root, r, t, stacks)
  {
    hide Timed;
  }

  lemma {:induction false} LinesTimed(files: Resources, root: string, name: string, isRoot: bool, i: nat, r: Reading,
                                      stack: map<string, nat>)
    requires Sound(files, root, r, stack[name := i]) && LeadTo(files, stack[name := i], name)
             && Reaches(files, root, name)
    requires name in files && i <= |files[name]| && (isRoot <==> name == root) && root in r.entered && name in r.entered
    ensures var t, stacks := ReadLines(files, name, isRoot, i, r), LinesStacks(files, name, i, r, stack, isRoot);
            t.missing.None? ==> Times(files, root, r, t, map[name := stack] + stacks) && Fresh(r, t, stacks)
    decreases |Unread(files, r)|, |files[name]| - i + 1
  {
    hide LeadTo, Ordered, Written, Closed, Opened, OnStack, InOrder, Distinct, ReadLine, LineStacks, Times, Timed,
         Sound, Reaches, Fresh;
    SoundMissesNone(files, root, r, stack[name := i]);
    if i == |files[name]| {
      NothingTimed(files, root, r, map[name := stack] + map[]);
      NothingFresh(r);
    } else {
      var t := ReadLine(files, name, isRoot, i, r);
      LineKeeps(files, root, name, isRoot, i, r, stack[name := i]);
      LineTimed(files, root, name, isRoot, i, r, stack);
      UnreadShrinks(files, r, t);
      if t.missing.None? {
        EnteredStays(r, t, root);
        EnteredStays(r, t, name);
        assert stack[name := i][name := i + 1] == stack[name := i + 1];
        LeadToSelf(files, stack[name := i], name, i + 1);
        LinesTimed(files, root, name, isRoot, i + 1, t, stack);
        var u := ReadLines(files, name, isRoot, i + 1, t);
        if u.missing.None? {
          JoinLines(files, root, r, t, u, name, stack, LineStacks(files, name, i, r, stack),
                    LinesStacks(files, name, i + 1, t, stack, isRoot));
        }
      } else {
        StaysMissing(files, name, isRoot, i + 1, t);
      }
    }
  }

  lemma JoinLines(files: Resources, root: string, r: Reading, t: Reading, u: Reading, name: string,
                  stack: map<string, nat>, some: map<string, map<string, nat>>, more: map<string, map<string, nat>>)
    requires Times(files, root, r, t, map[name := stack] + some) && Times(files, root, t, u, map[name := stack] + more)
    requires Fresh(r, t, some) && Fresh(t, u, more) && name in r.entered
    requires ToSet(r.entered) <= ToSet(t.entered) <= ToSet(u.entered)
    ensures Times(files, root, r, u, map[name := stack] + (some + more)) && Fresh(r, u, some + more)
  {
    hide Times;
    assert name in ToSet(r.entered);
    assert name in ToSet(t.entered);
    TimesOn(files, root, r, t, u, map[name := stack] + some, map[name := stack] + more);
    assert map[name := stack] + some + (map[name := stack] + more) == map[name := stack] + (some + more);
    FreshOn(r, t, u, some, more);
  }

  lemma EnteredStays(r: Reading, t: Reading, n: string)
    requires ToSet(r.entered) <= ToSet(t.entered) && n in r.entered
    ensures n in t.entered
  {
    assert n in ToSet(r.entered);
  }

  lemma StaysMissing(files: Resources, name: string, isRoot: bool, i: nat, r: Reading)
    requires name in files && i <= |files[name]| && r.missing.Some?
    ensures ReadLines(files, name, isRoot, i, r) == r
  {
  }

  lemma FreshOn(r: Reading, t: Reading, u: Reading, some: map<string, map<string, nat>>,
                more: map<string, map<string, nat>>)
    requires Fresh(r, t, some) && Fresh(t, u, more)
    requires ToSet(r.entered) <= ToSet(t.entered) <= ToSet(u.entered)
    ensures Fresh(r, u, some + more)
  {
    forall n | n in some + more ensures n in u.entered && n !in r.entered {
      assert n in r.entered ==> n in ToSet(r.entered);
      assert n in t.entered ==> n in ToSet(t.entered);
    }
  }

  lemma {:induction false} LineTimed(files: Resources, root: string, name: string, isRoot: bool, i: nat, r: Reading,
                                     stack: map<string, nat>)
    requires Sound(files, root, r, stack[name := i]) && LeadTo(files, stack[name := i], name)
             && Reaches(files, root, name)
    requires name in files && i < |files[name]| && (isRoot <==> name == root) && root in r.entered && name in r.entered
    ensures var t, stacks := ReadLine(files, name, isRoot, i, r), LineStacks(files, name, i, r, stack);
            t.missing.None? ==> Times(files, root, r, t, map[name := stack] + stacks) && Fresh(r, t, stacks)
    decreases |Unread(files, r)|, |files[name]| - i
  {
    hide LeadTo, Ordered, Written, Closed, Opened, OnStack, InOrder, Distinct, ReadFile, FileStacks, Times, Timed,
         Reaches;
    var line := files[name][i];
    assert map[name := stack] + map[] == map[name := stack];
    if Kept(files, root, Piece(name, i)) {
      LineIsTimed(files, root, r, stack, name, i);
    } else if IsPragma(line) {
      NothingTimed(files, root, r, map[name := stack]);
    } else {
      var target := Target(name, line);
      assert ImportsAt(files, name, i, target);
      LeadToTarget(files, root, stack[name := i], name, i, target);
      FileTimed(files, root, target, r, stack[name := i]);
      var t := ReadFile(files, target, false, r);
      if t.missing.None? {
        MoreStacks(files, root, r, t, FileStacks(files, target, r, stack[name := i]), name, stack);
      }
    }
  }

  lemma MoreStacks(files: Resources, root: string, r: Reading, t: Reading, stacks: map<string, map<string, nat>>,
                   name: string, stack: map<string, nat>)
    requires Times(files, root, r, t, stacks)
    ensures Times(files, root, r, t, map[name := stack] + stacks)
  {
    hide Timed;
  }

  lemma FlattenedTimed(files: Resources, root: string)
    requires Flattened(files, root).missing.None?
    ensures Times(files, root, Reading([], [], None), Flattened(files, root), Stacks(files, root))
  {
    hide LeadTo, Ordered, Written, Closed, Opened, OnStack, InOrder, Distinct, ReadLines, LinesStacks, Times, Reaches;
    var r := Reading([], [], None);
    StartSound(files, root);
    ReachesSelf(files, root);
    EnterKeeps(files, root, r, map[], root);
    LeadToSelf(files, map[], root, 0);
    LinesTimed(files, root, root, true, 0, Enter(r, root), map[]);
    EnteredTimes(files, root, r, root, ReadLines(files, root, true, 0, Enter(r, root)), Stacks(files, root));
  }

  /** A resource is still being read, and its line is not done, when the importer is opened. */
  predicate StillToCome(files: Resources, root: string, importer: string, p: Piece) {
    importer in Stacks(files, root) && p.resource in Stacks(files, root)[importer]
    && Stacks(files, root)[importer][p.resource] <= p.line
  }

  /**
   With cycles or without: the text of an imported resource comes before what follows the import line, except
   for the lines still to come when the resource that imports it was opened.
   */
  lemma ImportOrderIff(files: Resources, root: string, a: nat, b: nat, i: nat)
    requires var t := Flattened(files, root);
             && t.missing.None? && a < |t.pieces| && b < |t.pieces|
             && ImportsAt(files, t.pieces[b].resource, i, t.pieces[a].resource) && i < t.pieces[b].line
             && t.pieces[a].resource != t.pieces[b].resource
    ensures a < b <==> !StillToCome(files, root, Flattened(files, root).pieces[b].resource,
                                    Flattened(files, root).pieces[a])
  {
    hide Flattened, Stacks, Kept, ImportsAt, Reaches, InOrder;
    var t := Flattened(files, root);
    FlattenedTimed(files, root);
    WritesEachOnce(files, root);
    assert t.pieces[a] in t.pieces;
    var before, p, q := t.pieces[..b], t.pieces[b], t.pieces[a];
    assert Timed(files, root, before, p, Stacks(files, root)[p.resource]);
    assert q in before <==> a < b by {
      if a < b {
        assert before[a] == q;
      }
      if q in before {
        var k :| 0 <= k < b && before[k] == q;
        assert t.pieces[k] == t.pieces[a];
      }
    }
    KeptLine(files, root, q);
  }

  lemma KeptLine(files: Resources, root: string, q: Piece)
    requires Kept(files, root, q)
    ensures q.resource in files && q.line < |files[q.resource]|
  {
  }

  /** With a cycle it need not: here the text of "a" comes after what follows its import in "b". */
  lemma CycleBreaksOrder(files: Resources)
    requires files == map["a" := ["import \"b\"", "x"], "b" := ["import \"a\"", "y"]]
    ensures Flattened(files, "a").pieces == [Piece("b", 1), Piece("a", 1)]
    ensures ImportsAt(files, "b", 0, "a")
  {
    hide IsPragma, IsImport, Target;
    ImportLine('a');
    ImportLine('b');
    PlainLine('x');
    PlainLine('y');
    assert files["a"] == ["import \"b\"", "x"] && files["b"] == ["import \"a\"", "y"];
    var r1 := Enter(Reading([], [], None), "a");
    var r2 := Enter(r1, "b");
    CycleLines(files, r1, r2);
    assert "import \"a\"" == "import \"" + ['a'] + "\"" && "a" == ['a'];
    assert Flattened(files, "a") == ReadLines(files, "a", true, 0, r1);
  }

  lemma CycleLines(files: Resources, r1: Reading, r2: Reading)
    requires files == map["a" := ["import \"b\"", "x"], "b" := ["import \"a\"", "y"]]
    requires r1 == Enter(Reading([], [], None), "a") && r2 == Enter(r1, "b")
    requires forall c | c == 'a' || c == 'b' :: ImportLineOf(c)
    requires forall c | c == 'x' || c == 'y' :: !IsPragma([c]) && !IsImport([c])
    ensures ReadLines(files, "a", true, 0, r1) == Write(Write(r2, "b", 1), "a", 1)
  {
    hide IsPragma, IsImport, Target;
    assert ImportLineOf('a') && ImportLineOf('b');
    assert "x" == ['x'] && "y" == ['y'] && "a" == ['a'] && "b" == ['b'];
    assert "import \"a\"" == "import \"" + ['a'] + "\"" && "import \"b\"" == "import \"" + ['b'] + "\"";
    assert files["a"] == ["import \"b\"", "x"] && files["b"] == ["import \"a\"", "y"];
    var w := Write(r2, "b", 1);
    assert ReadLines(files, "b", false, 2, w) == w;
    assert ReadLine(files, "b", false, 1, r2) == w;
    assert ReadLines(files, "b", false, 1, r2) == w;
    assert ReadLine(files, "b", false, 0, r2) == ReadFile(files, "a", false, r2) == r2;
    assert ReadLines(files, "b", false, 0, r2) == w;
    assert ReadLine(files, "a", true, 0, r1) == ReadFile(files, "b", false, r1) == w;
    var v := Write(w, "a", 1);
    assert ReadLines(files, "a", true, 2, v) == v;
    assert ReadLine(files, "a", true, 1, w) == v;
    assert ReadLines(files, "a", true, 1, w) == v;
  }

  predicate ImportLineOf(c: char) {
    var line := "import \"" + [c] + "\"";
    !IsPragma(line) && IsImport(line) && Target("a", line) == Target("b", line) == [c]
  }

  lemma ImportLine(c: char)
    requires c == 'a' || c == 'b'
    ensures ImportLineOf(c)
  {
    hide IndexOf, LastIndexOf, IsPragma, IsImport;
    var line := "import \"" + [c] + "\"";
    IsImportLine(c);
    QuoteAt(line, 7, 9);
    assert line[8..9] == [c];
  }

  lemma IsImportLine(c: char)
    requires c == 'a' || c == 'b'
    ensures var line := "import \"" + [c] + "\""; !IsPragma(line) && IsImport(line)
  {
    hide IndexOf, LastIndexOf;
    var line := "import \"" + [c] + "\"";
    assert TrimLeft(line) == line;
    var rest := line[6..];
    assert rest == [' ', '"', c, '"'];
    QuoteAt(rest, 1, 3);
    assert rest[2..] == [c, '"'];
    assert IndexOf(rest[2..], '"') == 1;
  }

  /** The first and the last quote of a text with two. */
  lemma QuoteAt(s: string, i: nat, j: nat)
    requires i < j < |s| && forall k | 0 <= k < |s| :: s[k] == '"' <==> k == i || k == j
    ensures IndexOf(s, '"') == i && LastIndexOf(s, '"') == j
  {
    TwoQuotes(s, i, j);
  }

  lemma PlainLine(c: char)
    requires c == 'x' || c == 'y'
    ensures !IsPragma([c]) && !IsImport([c])
  {
    assert TrimLeft([c]) == [c];
  }

  // ------------------------------------------------------------------ the text

  /** Lines are written one after the other, without anything between them. */
  function TextOf(files: Resources, pieces: seq<Piece>): string
    requires forall p | p in pieces :: p.resource in files && p.line < |files[p.resource]|
    decreases |pieces|
  {
    if pieces == [] then ""
    else
      var last := pieces[|pieces| - 1];
      TextOf(files, pieces[..|pieces| - 1]) + files[last.resource][last.line]
  }

  /** The builder of the text and the set of resources, shared by all levels of the recursion. */
  class ContractReader {
    const files: Resources
    var text: string
    var resources: set<string>
    ghost var reading: Reading

    ghost predicate Valid()
      reads this
    {
      && (forall p | p in reading.pieces :: p.resource in files && p.line < |files[p.resource]|)
      && text == TextOf(files, reading.pieces) && resources == ToSet(reading.entered)
    }

    constructor (files: Resources)
      ensures Valid() && this.files == files && reading == Reading([], [], None) && text == ""
    {
      this.files, text, resources, reading := files, "", {}, Reading([], [], None);
    }

    /** Reads a resource into the text; false if a resource is missing. */
    method ReadContractInto(contractResource: string, root: bool) returns (found: bool)
      requires Valid() && reading.missing.None?
      modifies this
      ensures Valid() && reading == ReadFile(files, contractResource, root, old(reading))
      ensures found <==> reading.missing.None?
      decreases |Unread(files, reading)|, 0
    {
      if contractResource in resources {
        return true;
      }
      ghost var start := reading;
      resources := resources + {contractResource};
      reading := Enter(reading, contractResource);
      if contractResource !in files {
        reading := reading.(missing := Some(contractResource));
        return false;
      }
      EnterShrinks(files, start, contractResource);
      ghost var first := reading;
      var i := 0;
      while i < |files[contractResource]|
        invariant i <= |files[contractResource]| && Valid() && reading.missing.None?
        invariant ToSet(first.entered) <= ToSet(reading.entered)
        invariant ReadLines(files, contractResource, root, i, reading) ==
                    ReadLines(files, contractResource, root, 0, first)
      {
        var line := files[contractResource][i];
        if IsPragma(line) {
          if root {
            Append(contractResource, i);
          }
        } else if IsImport(line) {
          UnreadShrinks(files, first, reading);
          var ok := ReadContractInto(Target(contractResource, line), false);
          if !ok {
            return false;
          }
        } else {
          Append(contractResource, i);
        }
        i := i + 1;
      }
      return true;
    }

    method Append(contractResource: string, i: nat)
      requires Valid() && contractResource in files && i < |files[contractResource]|
      modifies `text, `reading
      ensures Valid() && reading == Write(old(reading), contractResource, i)
      ensures text == old(text) + files[contractResource][i]
    {
      text := text + files[contractResource][i];
      reading := Write(reading, contractResource, i);
      assert reading.pieces[..|reading.pieces| - 1] == old(reading).pieces;
    }
  }
}

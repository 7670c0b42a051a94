/**
 Which lines of a contract source are pragmas and imports, and which resource an import names: said of the line
 as a whole.
 */
module ImportLines {
  import opened Text
  import opened Imports

  predicate Spaces(s: string) {
    forall c | c in s :: c in " \t\n\r\U{000B}\U{000C}"
  }

  /** Nothing that ends a line. */
  predicate OneLine(s: string) {
    forall c | c in s :: c !in "\n\r\U{0085}\U{2028}\U{2029}"
  }

  lemma OneLineIff(s: string)
    ensures NoLineEnd(s) <==> OneLine(s)
  {
    forall c ensures LineEnd(c) <==> c in "\n\r\U{0085}\U{2028}\U{2029}" {
      var ends := "\n\r\U{0085}\U{2028}\U{2029}";
      assert ends[0] == '\n' && ends[1] == '\r' && ends[2] == '\U{0085}' && ends[3] == '\U{2028}'
             && ends[4] == '\U{2029}';
    }
  }

  lemma SpacesIff(c: char)
    ensures Space(c) <==> c in " \t\n\r\U{000B}\U{000C}"
  {
    var spaces := " \t\n\r\U{000B}\U{000C}";
    assert spaces[0] == ' ' && spaces[1] == '\t' && spaces[2] == '\n' && spaces[3] == '\r';
    assert spaces[4] == '\U{000B}' && spaces[5] == '\U{000C}';
  }

  lemma OneMore(c: char, spaces: string)
    requires Space(c) && Spaces(spaces)
    ensures Spaces([c] + spaces)
  {
    SpacesIff(c);
  }

  lemma Fewer(spaces: string)
    requires Spaces(spaces) && spaces != ""
    ensures Space(spaces[0]) && Spaces(spaces[1..]) && spaces == [spaces[0]] + spaces[1..]
  {
    assert spaces[0] in spaces;
    SpacesIff(spaces[0]);
  }

  lemma {:induction false} TrimSplits(s: string) returns (spaces: string)
    ensures Spaces(spaces) && s == spaces + TrimLeft(s)
    decreases |s|
  {
    hide Space, Spaces;
    if s != "" && Space(s[0]) {
      var more := TrimSplits(s[1..]);
      spaces := [s[0]] + more;
      OneMore(s[0], more);
      Behind(s, more, TrimLeft(s[1..]));
    } else {
      spaces := "";
      NoSpaces();
    }
  }

  lemma Behind(s: string, a: string, b: string)
    requires s != "" && s[1..] == a + b
    ensures s == [s[0]] + a + b
  {
    assert s == [s[0]] + s[1..];
  }

  lemma NoSpaces()
    ensures Spaces("")
  {
  }

  lemma {:induction false} TrimOff(spaces: string, s: string)
    requires Spaces(spaces) && s != "" && !Space(s[0])
    ensures TrimLeft(spaces + s) == s
    decreases |spaces|
  {
    hide Space, Spaces;
    if spaces == "" {
      assert spaces + s == s;
    } else {
      Fewer(spaces);
      TrimOff(spaces[1..], s);
      assert (spaces + s)[1..] == spaces[1..] + s;
    }
  }

  ghost predicate PragmaLine(line: string) {
    exists spaces, rest :: line == spaces + "pragma" + rest && Spaces(spaces) && OneLine(rest)
  }

  /** A pragma line is the word with spaces in front of it and anything behind it. */
  lemma IsPragmaIff(line: string)
    ensures IsPragma(line) <==> PragmaLine(line)
  {
    hide TrimLeft, NoLineEnd, OneLine;
    var s := TrimLeft(line);
    if IsPragma(line) {
      var spaces := TrimSplits(line);
      var rest := s[6..];
      OneLineIff(rest);
      PrefixSplits("pragma", s);
      assert line == spaces + "pragma" + rest;
    }
    if spaces, rest :| line == spaces + "pragma" + rest && Spaces(spaces) && OneLine(rest) {
      assert line == spaces + ("pragma" + rest);
      OneLineIff(rest);
      TrimOff(spaces, "pragma" + rest);
      assert s[6..] == rest;
    }
  }

  /** The first quote of a text behind a part without one. */
  lemma QuoteBehind(a: string, rest: string)
    requires '"' !in a
    ensures IndexOf(a + "\"" + rest, '"') == |a|
    ensures (a + "\"" + rest)[..|a|] == a && (a + "\"" + rest)[|a| + 1..] == rest
  {
    var s := a + "\"" + rest;
    var i := IndexOf(s, '"');
    assert s[|a|] == '"' && forall k | 0 <= k < |a| :: s[k] == a[k];
    assert forall k | 0 <= k < i :: s[..i][k] == s[k];
  }

  lemma SplitAtQuote(s: string) returns (a: string, rest: string)
    requires '"' in s
    ensures '"' !in a && s == a + "\"" + rest
    ensures a == s[..IndexOf(s, '"')] && rest == s[IndexOf(s, '"') + 1..]
  {
    var i := IndexOf(s, '"');
    a, rest := s[..i], s[i + 1..];
    assert s == s[..i] + [s[i]] + s[i + 1..];
  }

  ghost predicate ImportLine(line: string) {
    exists spaces, a, b, rest :: ImportParts(line, spaces, a, b, rest)
  }

  predicate ImportParts(line: string, spaces: string, a: string, b: string, rest: string) {
    && line == spaces + ("import" + (a + "\"" + (b + "\"" + rest)))
    && Spaces(spaces) && '"' !in a && '"' !in b && OneLine(rest)
  }

  lemma ImportHasParts(line: string)
    requires IsImport(line)
    ensures ImportLine(line)
  {
    hide TrimLeft, IndexOf, NoLineEnd, OneLine;
    var s := TrimLeft(line);
    var spaces := TrimSplits(line);
    var a, more := SplitAtQuote(s[6..]);
    var b, rest := SplitAtQuote(more);
    OneLineIff(rest);
    PrefixSplits("import", s);
    JoinParts(line, spaces, s, a, b, more, rest);
  }

  lemma PrefixSplits(p: string, s: string)
    requires p <= s
    ensures s == p + s[|p|..]
  {
  }

  lemma JoinParts(line: string, spaces: string, s: string, a: string, b: string, more: string, rest: string)
    requires line == spaces + s && Spaces(spaces) && s == "import" + (a + "\"" + more) && more == b + "\"" + rest
    requires '"' !in a && '"' !in b && OneLine(rest)
    ensures ImportParts(line, spaces, a, b, rest)
  {
  }

  lemma PartsAreImport(line: string, spaces: string, a: string, b: string, rest: string)
    requires ImportParts(line, spaces, a, b, rest)
    ensures IsImport(line)
  {
    hide TrimLeft, IndexOf, NoLineEnd, OneLine;
    var behind := a + "\"" + (b + "\"" + rest);
    var s := "import" + behind;
    TrimOff(spaces, s);
    assert s[6..] == behind && "import" <= s;
    QuoteBehind(a, b + "\"" + rest);
    QuoteBehind(b, rest);
    OneLineIff(rest);
  }

  /** An import line is the word with spaces in front of it, and two quotes somewhere behind it. */
  lemma IsImportIff(line: string)
    ensures IsImport(line) <==> ImportLine(line)
  {
    hide IsImport, ImportParts;
    if IsImport(line) {
      ImportHasParts(line);
    }
    if spaces, a, b, rest :| ImportParts(line, spaces, a, b, rest) {
      PartsAreImport(line, spaces, a, b, rest);
    }
  }

  /** A text in two quotes, with something in front of it and behind it. */
  predicate Around(line: string, head: string, name: string, tail: string) {
    line == head + "\"" + (name + "\"" + tail)
  }

  /** The text between the first and the last quote of a line. */
  ghost predicate Quoted(line: string, name: string) {
    exists head, tail :: Around(line, head, name, tail) && '"' !in head && '"' !in tail
  }

  /** The path of a resource up to and with its last slash, if it has one. */
  ghost predicate Directory(resource: string, dir: string) {
    exists file :: resource == dir + file && '/' !in file && (dir == "" || dir[|dir| - 1] == '/')
  }

  lemma {:induction false} LastBehind(s: string, c: char, i: nat)
    requires i < |s| && s[i] == c && c !in s[i + 1..]
    ensures LastIndexOf(s, c) == i
  {
    var j := LastIndexOf(s, c);
    assert forall k | i < k < |s| :: s[k] == s[i + 1..][k - i - 1];
    assert j < |s| ==> forall k | j < k < |s| :: s[k] == s[j + 1..][k - j - 1];
    assert s[i] in s;
  }

  lemma FirstQuote(line: string, head: string, name: string, tail: string)
    requires Around(line, head, name, tail) && '"' !in head
    ensures IndexOf(line, '"') == |head|
  {
    QuoteBehind(head, name + "\"" + tail);
  }

  lemma LastQuote(line: string, head: string, name: string, tail: string)
    requires Around(line, head, name, tail) && '"' !in tail
    ensures LastIndexOf(line, '"') == |head| + 1 + |name| < |line|
  {
    hide LastIndexOf;
    var last := |head| + 1 + |name|;
    assert line == (head + "\"" + name) + "\"" + tail;
    assert line[last] == '"' && line[last + 1..] == tail;
    LastBehind(line, '"', last);
  }

  lemma NameBetween(line: string, head: string, name: string, tail: string)
    requires Around(line, head, name, tail)
    ensures |head| + 1 + |name| <= |line| && line[|head| + 1..|head| + 1 + |name|] == name
  {
    var rest := name + "\"" + tail;
    assert line[|head| + 1..] == rest && rest[..|name|] == name;
  }

  lemma QuotedIs(line: string, name: string)
    requires Quoted(line, name)
    ensures var i, j := IndexOf(line, '"'), LastIndexOf(line, '"'); i < j < |line| && line[i + 1..j] == name
  {
    hide IndexOf, LastIndexOf, Around;
    var head, tail :| Around(line, head, name, tail) && '"' !in head && '"' !in tail;
    FirstQuote(line, head, name, tail);
    LastQuote(line, head, name, tail);
    NameBetween(line, head, name, tail);
  }

  lemma DirectoryIs(resource: string, dir: string)
    requires Directory(resource, dir)
    ensures dir == if '/' in resource then resource[..LastIndexOf(resource, '/') + 1] else ""
  {
    hide LastIndexOf;
    var file :| resource == dir + file && '/' !in file && (dir == "" || dir[|dir| - 1] == '/');
    if dir == "" {
      assert resource == file;
    } else {
      assert resource[|dir| - 1] == '/' && resource[|dir|..] == file;
      LastBehind(resource, '/', |dir| - 1);
      assert resource[..|dir|] == dir;
    }
  }

  /** An import names the resource quoted, in the directory of the one it is in. */
  lemma TargetIs(resource: string, line: string, dir: string, name: string)
    requires IsImport(line) && Directory(resource, dir) && Quoted(line, name)
    ensures Target(resource, line) == dir + name
  {
    hide IsImport, IndexOf, LastIndexOf, Directory, Quoted, Target;
    QuotedIs(line, name);
    DirectoryIs(resource, dir);
    TargetIn(resource, line, IndexOf(line, '"'), LastIndexOf(line, '"'));
  }

  lemma TargetIn(resource: string, line: string, i: nat, j: nat)
    requires IsImport(line) && i == IndexOf(line, '"') && j == LastIndexOf(line, '"') && i < j < |line|
    ensures Target(resource, line) ==
            (if '/' in resource then resource[..LastIndexOf(resource, '/') + 1] else "") + line[i + 1..j]
  {
    hide IsImport, IndexOf, LastIndexOf;
    var name := line[i + 1..j];
    assert "" + name == name;
  }

  /** Every import line has a quoted text, and every resource a directory. */
  lemma TargetExists(resource: string, line: string) returns (dir: string, name: string)
    requires IsImport(line)
    ensures Directory(resource, dir) && Quoted(line, name)
  {
    hide IsImport, IndexOf, LastIndexOf;
    ImportQuotes(line);
    var i, j := IndexOf(line, '"'), LastIndexOf(line, '"');
    var head, tail := line[..i], line[j + 1..];
    name := line[i + 1..j];
    assert Around(line, head, name, tail);
    var k := LastIndexOf(resource, '/');
    if k < |resource| {
      dir := resource[..k + 1];
      assert resource == dir + resource[k + 1..];
    } else {
      dir := "";
      assert resource == dir + resource;
    }
  }

  predicate LinesOf(files: Resources, pieces: seq<Piece>) {
    forall p | p in pieces :: p.resource in files && p.line < |files[p.resource]|
  }

  /** One line is written as it is. */
  lemma LineWritten(files: Resources, p: Piece)
    requires LinesOf(files, [p])
    ensures TextOf(files, [p]) == files[p.resource][p.line]
  {
    assert p in [p];
  }

  /** What is written first comes first, and nothing comes between. */
  lemma {:induction false} TextJoins(files: Resources, a: seq<Piece>, b: seq<Piece>)
    requires LinesOf(files, a) && LinesOf(files, b)
    ensures TextOf(files, a + b) == TextOf(files, a) + TextOf(files, b)
    decreases |b|
  {
    if b == [] {
      assert a + b == a;
    } else {
      var n := |b| - 1;
      TextJoins(files, a, b[..n]);
      assert (a + b)[..|a + b| - 1] == a + b[..n] && (a + b)[|a + b| - 1] == b[n];
    }
  }
}

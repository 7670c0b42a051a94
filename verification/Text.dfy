/** Finding a character in a text. */
module Text {
  /** Where a character is found first, or the length of the text. */
  function IndexOf(s: string, c: char): (i: nat)
    ensures i <= |s| && c !in s[..i] && (i < |s| ==> s[i] == c) && (i == |s| <==> c !in s)
  {
    if s == "" || s[0] == c then 0 else
      var i := IndexOf(s[1..], c) + 1;
      assert s[..i] == [s[0]] + s[1..][..i - 1];
      assert s == [s[0]] + s[1..];
      i
  }

  /** Where a character is found last, or the length of the text. */
  function LastIndexOf(s: string, c: char): (i: nat)
    ensures i <= |s| && (i < |s| ==> s[i] == c && c !in s[i + 1..]) && (i == |s| ==> c !in s)
  {
    if s == "" then 0
    else if s[|s| - 1] == c then |s| - 1
    else
      var rest := s[..|s| - 1];
      var i := LastIndexOf(rest, c);
      assert s == rest + [s[|s| - 1]];
      assert i < |rest| ==> s[i + 1..] == rest[i + 1..] + [s[|s| - 1]];
      if i == |rest| then |s| else i
  }
}

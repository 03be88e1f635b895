/** The string operations of the scripts. */
module Text {

  predicate IsBlank(c: char) { c == ' ' || c == '\t' || c == '\n' || c == '\r' || c == '\U{0B}' || c == '\U{0C}' || '\U{1C}' <= c <= '\U{1F}' }

  predicate NoBlank(s: string) { forall k :: 0 <= k < |s| ==> !IsBlank(s[k]) }

  /** `n` times the same character. */
  function Fill(c: char, n: int): (s: string)
    ensures |s| == if n < 0 then 0 else n
    decreases if n < 0 then 0 else n
  {
    if n <= 0 then "" else Fill(c, n - 1) + [c]
  }

  /** Leading blanks dropped. */
  function Unpad(s: string): string { if s != "" && s[0] == ' ' then Unpad(s[1..]) else s }

  lemma {:induction false} UnpadFill(n: int, s: string)
    requires s == "" || s[0] != ' '
    ensures Unpad(Fill(' ', n) + s) == s
    decreases if n < 0 then 0 else n
  {
    if n > 0 {
      FillStarts(' ', n);
      assert (Fill(' ', n) + s)[1..] == Fill(' ', n - 1) + s;
      UnpadFill(n - 1, s);
    } else {
      assert Fill(' ', n) + s == s;
    }
  }

  lemma {:induction false} FillStarts(c: char, n: int)
    requires n > 0
    ensures Fill(c, n) == [c] + Fill(c, n - 1)
    decreases n
  {
    if n > 1 {
      FillStarts(c, n - 1);
    }
  }

  /** The longest prefix without blanks. */
  function WordOf(s: string): (w: string)
    ensures |w| <= |s| && s[..|w|] == w
  {
    if s == "" || IsBlank(s[0]) then "" else [s[0]] + WordOf(s[1..])
  }

  /** Splitting at runs of blanks. */
  function Split(s: string): seq<string>
    decreases |s|
  {
    if s == "" then []
    else if IsBlank(s[0]) then Split(s[1..])
    else
      var w := WordOf(s);
      [w] + Split(s[|w|..])
  }

  /** Splitting at every separator character. */
  function SplitAt(s: string, c: char): (pieces: seq<string>)
    ensures pieces != []
  {
    if s == "" then [""]
    else
      var rest := SplitAt(s[1..], c);
      if s[0] == c then [""] + rest else [[s[0]] + rest[0]] + rest[1..]
  }

  /** `part` occurs in `s`. */
  predicate Occurs(part: string, s: string) {
    part <= s || (s != "" && Occurs(part, s[1..]))
  }

  /** Replacing every occurrence, from the left. */
  function Replace(s: string, part: string, put: string): string
    decreases |s|
  {
    if part == "" then put + (if s == "" then "" else [s[0]] + Replace(s[1..], part, put))
    else if s == "" then ""
    else if part <= s then put + Replace(s[|part|..], part, put)
    else [s[0]] + Replace(s[1..], part, put)
  }

  // ----- their laws -----

  lemma {:induction false} WordOfConcat(w: string, rest: string)
    requires NoBlank(w) && rest != "" && IsBlank(rest[0])
    ensures WordOf(w + rest) == w
  {
    if w == "" {
      assert w + rest == rest;
    } else {
      assert (w + rest)[1..] == w[1..] + rest;
      WordOfConcat(w[1..], rest);
    }
  }

  lemma {:induction false} WordOfWhole(w: string)
    requires NoBlank(w)
    ensures WordOf(w) == w
  {
    if w != "" {
      WordOfWhole(w[1..]);
    }
  }

  lemma SplitsInTwo(op: string, args: string)
    requires NoBlank(op) && op != "" && NoBlank(args) && args != ""
    ensures Split(op + "\t" + args) == [op, args]
  {
    var line := op + "\t" + args;
    assert line == op + ("\t" + args);
    WordOfConcat(op, "\t" + args);
    assert line[|op|..] == "\t" + args;
    assert ("\t" + args)[1..] == args;
    WordOfWhole(args);
    assert args[|args|..] == "";
    assert Split(args) == [args] + Split("");
    assert Split("\t" + args) == Split(args);
  }

  lemma {:induction false} SplitAtNone(s: string, c: char)
    requires c !in s
    ensures SplitAt(s, c) == [s]
  {
    if s != "" {
      SplitAtNone(s[1..], c);
      assert [s[0]] + s[1..] == s;
    }
  }

  lemma {:induction false} SplitAtOne(a: string, b: string, c: char)
    requires c !in a && c !in b
    ensures SplitAt(a + [c] + b, c) == [a, b]
  {
    var s := a + [c] + b;
    if a == "" {
      assert s[1..] == b;
      SplitAtNone(b, c);
    } else {
      assert s[1..] == a[1..] + [c] + b;
      SplitAtOne(a[1..], b, c);
      assert [a[0]] + a[1..] == a;
    }
  }

  lemma {:induction false} TooShort(name: string, s: string)
    requires |s| < |name|
    ensures !Occurs(name, s)
  {
    if s != "" {
      TooShort(name, s[1..]);
    }
  }

  lemma ReplaceSkips(s: string, part: string, put: string)
    requires part != "" && s != "" && !(part <= s)
    ensures Replace(s, part, put) == [s[0]] + Replace(s[1..], part, put)
  {
  }

  lemma ReplaceEmpty(part: string, put: string)
    requires part != ""
    ensures Replace("", part, put) == ""
  {
  }

  lemma ReplaceHere(part: string, after: string, put: string)
    requires part != ""
    ensures Replace(part + after, part, put) == put + Replace(after, part, put)
  {
    assert (part + after)[..|part|] == part && (part + after)[|part|..] == after;
  }

  lemma {:induction false} ReplaceNothing(name: string, s: string, put: string)
    requires name != "" && !Occurs(name, s)
    ensures Replace(s, name, put) == s
  {
    if s != "" {
      ReplaceNothing(name, s[1..], put);
      assert [s[0]] + s[1..] == s;
    }
  }

  lemma {:induction false} OccursInItself(s: string)
    ensures Occurs(s, s)
  {
  }

  lemma {:induction false} ReplaceItself(s: string, part: string)
    requires part != ""
    ensures Replace(s, part, part) == s
    decreases |s|
  {
    hide Replace;
    if s == "" {
      ReplaceEmpty(part, part);
    } else {
      if part <= s {
        ReplaceHere(part, s[|part|..], part);
        ReplaceItself(s[|part|..], part);
        assert part + s[|part|..] == s;
      } else {
        ReplaceSkips(s, part, part);
        ReplaceItself(s[1..], part);
        assert [s[0]] + s[1..] == s;
      }
    }
  }
}

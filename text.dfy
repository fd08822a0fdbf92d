/** String helpers with Python's semantics: `str.strip(chars)`, `str.split("/")`,
    `"/".join(parts)` and taking the last "/" segment. */
module Text {

  /** The ASCII characters Python's argument-less `str.strip()` removes: space, tab, the
      line and form feeds, carriage return and the file, group, record and unit
      separators. */
  const Whitespace: set<char> := {' ', '\t', '\n', '\r', '\U{000B}', '\U{000C}', '\U{001C}', '\U{001D}', '\U{001E}', '\U{001F}'}

  /** `s.lstrip(cs)`: the longest suffix of `s` that does not start with a character of `cs`. */
  function TrimStart(s: string, cs: set<char>): (r: string)
    ensures |r| <= |s| && r == s[|s| - |r|..]
    ensures r == [] || r[0] !in cs
    ensures forall k :: 0 <= k < |s| - |r| ==> s[k] in cs
  {
    if s != [] && s[0] in cs then TrimStart(s[1..], cs) else s
  }

  /** `s.rstrip(cs)`: the longest prefix of `s` that does not end with a character of `cs`. */
  function TrimEnd(s: string, cs: set<char>): (r: string)
    ensures |r| <= |s| && r == s[..|r|]
    ensures s == [] || s[|s| - 1] !in cs ==> r == s
    ensures r == [] || r[|r| - 1] !in cs
    ensures forall k :: |r| <= k < |s| ==> s[k] in cs
  {
    if s != [] && s[|s| - 1] in cs then TrimEnd(s[..|s| - 1], cs) else s
  }

  /** `r` occurs in `s` at offset `i`. */
  predicate InfixAt(r: string, s: string, i: int)
  {
    0 <= i <= |s| - |r| && r == s[i..i + |r|]
  }

  /** `s.strip(cs)`: what is left of `s` once the characters of `cs` are removed from
      both ends, all of them and no others. */
  function Strip(s: string, cs: set<char>): (r: string)
    ensures r == [] || (r[0] !in cs && r[|r| - 1] !in cs)
    ensures exists i :: && InfixAt(r, s, i)
                        && (forall k :: 0 <= k < i ==> s[k] in cs)
                        && (forall k :: i + |r| <= k < |s| ==> s[k] in cs)
  {
    var t := TrimStart(s, cs);
    var r := TrimEnd(t, cs);
    TrimBothEnds(s, cs, t, r);
    r
  }

  /** Cutting a run of `cs` characters from the start of `s`, giving `t`, and then one
      from the end of `t`, giving `r`, leaves `r` at offset `|s| - |t|` of `s`. */
  lemma TrimBothEnds(s: string, cs: set<char>, t: string, r: string)
    requires |t| <= |s| && t == s[|s| - |t|..] && forall k :: 0 <= k < |s| - |t| ==> s[k] in cs
    requires |r| <= |t| && r == t[..|r|] && forall k :: |r| <= k < |t| ==> t[k] in cs
    ensures var i := |s| - |t|;
      && InfixAt(r, s, i)
      && (forall k :: 0 <= k < i ==> s[k] in cs)
      && (forall k :: i + |r| <= k < |s| ==> s[k] in cs)
  {
    var i := |s| - |t|;
    assert r == s[i..][..|r|] == s[i..i + |r|];
    forall k | i + |r| <= k < |s|
      ensures s[k] in cs
    {
      assert s[k] == t[k - i];
    }
  }

  /** Stripping a string that neither starts nor ends with a character of `cs` changes nothing. */
  lemma StripClean(s: string, cs: set<char>)
    requires s == [] || (s[0] !in cs && s[|s| - 1] !in cs)
    ensures Strip(s, cs) == s
  {
  }

  /** `s.split("/")`: the maximal '/'-free pieces of `s`, in order; never empty. */
  function Split(s: string): (r: seq<string>)
    ensures |r| >= 1
  {
    if s == [] then [""]
    else
      var rest := Split(s[1..]);
      if s[0] == '/' then [""] + rest else [[s[0]] + rest[0]] + rest[1..]
  }

  /** `"/".join(parts)`. */
  function Join(parts: seq<string>): string
    requires |parts| >= 1
  {
    if |parts| == 1 then parts[0] else parts[0] + "/" + Join(parts[1..])
  }

  /** `s.split("/")[-1]`. */
  function LastSegment(s: string): string
  {
    var parts := Split(s);
    parts[|parts| - 1]
  }

  /** No piece of a split contains the separator. */
  lemma {:induction false} SplitPiecesHaveNoSlash(s: string)
    ensures forall i :: 0 <= i < |Split(s)| ==> '/' !in Split(s)[i]
  {
    if s != [] {
      SplitPiecesHaveNoSlash(s[1..]);
      var rest := Split(s[1..]);
      if s[0] != '/' {
        assert '/' !in [s[0]] + rest[0];
      }
    }
  }

  /** A string without a separator splits into itself. */
  lemma {:induction false} SplitNoSlash(s: string)
    requires '/' !in s
    ensures Split(s) == [s]
  {
    if s != [] {
      SplitNoSlash(s[1..]);
      assert [s[0]] + s[1..] == s;
    }
  }

  /** Splitting at the first separator. */
  lemma {:induction false} SplitAtFirstSlash(a: string, b: string)
    requires '/' !in a
    ensures Split(a + "/" + b) == [a] + Split(b)
  {
    if a == [] {
      assert (a + "/" + b)[1..] == b;
    } else {
      assert (a + "/" + b)[1..] == a[1..] + "/" + b;
      SplitAtFirstSlash(a[1..], b);
      assert [a[0]] + a[1..] == a;
    }
  }

  /** Joining the pieces of a split gives the string back. */
  lemma {:induction false} JoinSplit(s: string)
    ensures Join(Split(s)) == s
  {
    if s != [] {
      JoinSplit(s[1..]);
      var rest := Split(s[1..]);
      if s[0] == '/' {
        assert Join(Split(s)) == "" + "/" + Join(rest);
      } else if |rest| == 1 {
        assert [s[0]] + s[1..] == s;
      } else {
        assert Join(rest) == rest[0] + "/" + Join(rest[1..]);
        assert Split(s)[1..] == rest[1..];
        assert Join(Split(s)) == ([s[0]] + rest[0]) + "/" + Join(rest[1..]);
        assert [s[0]] + s[1..] == s;
      }
    }
  }

  /** Splitting a join of separator-free pieces gives the pieces back. */
  lemma {:induction false} SplitJoin(parts: seq<string>)
    requires |parts| >= 1
    requires forall i :: 0 <= i < |parts| ==> '/' !in parts[i]
    ensures Split(Join(parts)) == parts
  {
    if |parts| == 1 {
      SplitNoSlash(parts[0]);
    } else {
      SplitJoin(parts[1..]);
      SplitAtFirstSlash(parts[0], Join(parts[1..]));
      assert [parts[0]] + parts[1..] == parts;
    }
  }

  /** The last segment is the longest separator-free suffix. */
  lemma {:induction false} LastSegmentIsSuffix(s: string)
    ensures '/' !in LastSegment(s)
    ensures |LastSegment(s)| <= |s| && LastSegment(s) == s[|s| - |LastSegment(s)|..]
    ensures |LastSegment(s)| < |s| ==> s[|s| - |LastSegment(s)| - 1] == '/'
  {
    if s == [] {
      assert LastSegment(s) == "";
    } else {
      LastSegmentStep(s);
      if s[0] != '/' && |Split(s[1..])| == 1 {
        SplitPiecesHaveNoSlash(s);
        assert LastSegment(s) == s;
      } else {
        var l := LastSegment(s[1..]);
        LastSegmentIsSuffix(s[1..]);
        assert LastSegment(s) == l;
        assert s[1..][|s| - 1 - |l|..] == s[|s| - |l|..];
        if |l| == |s| - 1 {
          LastSegmentWhole(s[1..]);
          assert s[0] == '/';
        } else {
          assert s[1..][|s| - 1 - |l| - 1] == s[|s| - |l| - 1];
        }
      }
    }
  }

  /** One step of `Split`: the last segment of `s` is `s` itself when its first character
      is not a separator and the rest has none, and the last segment of the rest otherwise. */
  lemma LastSegmentStep(s: string)
    requires s != []
    ensures if s[0] != '/' && |Split(s[1..])| == 1 then LastSegment(s) == s
            else LastSegment(s) == LastSegment(s[1..])
  {
    if s[0] != '/' && |Split(s[1..])| == 1 {
      JoinSplit(s[1..]);
      assert [s[0]] + s[1..] == s;
    }
  }

  /** A string that is its own last segment splits into one piece. */
  lemma LastSegmentWhole(s: string)
    requires LastSegment(s) == s
    ensures |Split(s)| == 1
  {
    SplitPiecesHaveNoSlash(s);
    SplitNoSlash(s);
  }

  /** A separator-free string is its own last segment and any string with a separator is not. */
  lemma LastSegmentFixed(s: string)
    ensures LastSegment(s) == s <==> '/' !in s
  {
    LastSegmentIsSuffix(s);
    if '/' !in s {
      SplitNoSlash(s);
    }
  }

  /** Python's `<` on strings: the first differing code point decides, and a proper
      prefix comes first. */
  predicate Before(a: string, b: string)
  {
    if a == [] then b != []
    else if b == [] then false
    else if a[0] != b[0] then a[0] < b[0]
    else Before(a[1..], b[1..])
  }

  lemma {:induction false} BeforeIrreflexive(a: string)
    ensures !Before(a, a)
  {
    if a != [] {
      BeforeIrreflexive(a[1..]);
    }
  }

  lemma {:induction false} BeforeTransitive(a: string, b: string, c: string)
    requires Before(a, b) && Before(b, c)
    ensures Before(a, c)
  {
    if a != [] && a[0] == b[0] && b[0] == c[0] {
      BeforeTransitive(a[1..], b[1..], c[1..]);
    }
  }

  lemma {:induction false} BeforeTotal(a: string, b: string)
    requires a != b
    ensures Before(a, b) || Before(b, a)
  {
    if a != [] && b != [] && a[0] == b[0] {
      assert a == [a[0]] + a[1..] && b == [b[0]] + b[1..];
      BeforeTotal(a[1..], b[1..]);
    }
  }
}

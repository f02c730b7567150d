/**
 * The three string operations of the host language that the core relies on:
 * joining parts with a separator, substring containment (what the pattern
 * `%value%` of a LIKE test asks for) and stripping surrounding whitespace.
 */
module Strings {

  /** `sep.join(parts)`: the parts, with `sep` between each two neighbours and nowhere else. */
  function Join(sep: string, parts: seq<string>): string
    decreases |parts|
  {
    if |parts| == 0 then ""
    else if |parts| == 1 then parts[0]
    else parts[0] + sep + Join(sep, parts[1..])
  }

  /** The parts written one after the other, with nothing between them. */
  function Concat(parts: seq<string>): string
    decreases |parts|
  {
    if parts == [] then "" else Concat(parts[..|parts| - 1]) + parts[|parts| - 1]
  }

  /** Concatenation distributes over appending lists of parts. */
  lemma {:induction false} ConcatAppend(a: seq<string>, b: seq<string>)
    ensures Concat(a + b) == Concat(a) + Concat(b)
    decreases |b|
  {
    if b == [] {
      assert a + b == a;
    } else {
      var front, last := b[..|b| - 1], b[|b| - 1];
      assert (a + b)[..|a + b| - 1] == a + front;
      ConcatAppend(a, front);
      calc {
        Concat(a + b);
        Concat(a + front) + last;
        (Concat(a) + Concat(front)) + last;
        Concat(a) + (Concat(front) + last);
        Concat(a) + Concat(b);
      }
    }
  }

  /** Taking one more part appends that part, also after a fixed heading. */
  lemma ConcatPrefix(head: string, parts: seq<string>, i: nat)
    requires i < |parts|
    ensures head + Concat(parts[..i + 1]) == head + Concat(parts[..i]) + parts[i]
  {
    assert parts[..i + 1][..i] == parts[..i];
  }

  /** Taking every part is the whole concatenation. */
  lemma ConcatWhole(head: string, parts: seq<string>)
    ensures head + Concat(parts[..|parts|]) == head + Concat(parts)
  {
    assert parts[..|parts|] == parts;
  }

  /** The parts before position `i`, the part at `i`, and the parts after it. */
  lemma ConcatAround(parts: seq<string>, i: nat)
    requires i < |parts|
    ensures Concat(parts) == Concat(parts[..i]) + parts[i] + Concat(parts[i + 1..])
  {
    var front, back := parts[..i + 1], parts[i + 1..];
    assert parts == front + back;
    ConcatAppend(front, back);
    assert front[..i] == parts[..i];
    assert Concat(front) == Concat(parts[..i]) + parts[i];
  }

  /** One more part at the end, after a fixed heading. */
  lemma ConcatSnoc(head: string, parts: seq<string>, last: string)
    ensures head + Concat(parts + [last]) == head + Concat(parts) + last
  {
    assert (parts + [last])[..|parts|] == parts;
  }

  /** A concatenation starts with its left operand and ends with its right one. */
  lemma AppendParts(a: string, b: string)
    ensures (a + b)[..|a|] == a
    ensures (a + b)[|a|..] == b
  {
  }

  /** Three strings written one after the other: the first opens the result and the last closes it. */
  lemma AppendThree(a: string, b: string, c: string)
    ensures |a| + |c| <= |a + b + c|
    ensures (a + b + c)[..|a|] == a
    ensures (a + b + c)[|a + b + c| - |c|..] == c
  {
    AppendParts(a, b + c);
    AppendParts(a + b, c);
    assert a + b + c == a + (b + c);
  }

  /** A string that ends with `m` ends with whatever `m` ends with. */
  lemma EndsWithEnd(s: string, m: string, e: string)
    requires |m| <= |s| && s[|s| - |m|..] == m
    requires |e| <= |m| && m[|m| - |e|..] == e
    ensures s[|s| - |e|..] == e
  {
    assert s[|s| - |e|..] == s[|s| - |m|..][|m| - |e|..];
  }

  /** Appending a part appends the separator and that part; joining nothing gives the empty string. */
  lemma {:induction false} JoinSnoc(sep: string, parts: seq<string>, last: string)
    ensures Join(sep, []) == ""
    ensures Join(sep, parts + [last]) == if parts == [] then last else Join(sep, parts) + sep + last
    decreases |parts|
  {
    if |parts| >= 2 {
      assert (parts + [last])[1..] == parts[1..] + [last];
      JoinSnoc(sep, parts[1..], last);
    } else if |parts| == 1 {
      assert (parts + [last])[1..] == [last];
    }
  }

  predicate IsPrefix(p: string, s: string)
  {
    |p| <= |s| && s[..|p|] == p
  }

  /** `needle` occurs somewhere in `s` as a contiguous run of characters. */
  predicate Contains(s: string, needle: string)
    decreases |s|
  {
    IsPrefix(needle, s) || (|s| > 0 && Contains(s[1..], needle))
  }

  /** Containment means an occurrence at some offset, in both directions. */
  lemma {:induction false} ContainsAt(s: string, needle: string)
    ensures Contains(s, needle) <==> exists k :: 0 <= k <= |s| && IsPrefix(needle, s[k..])
    decreases |s|
  {
    assert s[0..] == s;
    if |s| > 0 {
      ContainsAt(s[1..], needle);
      if Contains(s[1..], needle) {
        var k :| 0 <= k <= |s[1..]| && IsPrefix(needle, s[1..][k..]);
        assert s[1..][k..] == s[k + 1..];
      }
      if exists k :: 0 <= k <= |s| && IsPrefix(needle, s[k..]) {
        var k :| 0 <= k <= |s| && IsPrefix(needle, s[k..]);
        if k > 0 {
          assert s[1..][k - 1..] == s[k..];
          assert IsPrefix(needle, s[1..][k - 1..]);
        }
      }
    }
  }

  /** The empty pattern occurs in every string. */
  lemma ContainsEmpty(s: string)
    ensures Contains(s, "")
  {
  }

  /** The characters the host language's `str.strip()` removes. */
  const Whitespace: set<char> := {
    '\t', '\n', '\U{0B}', '\U{0C}', '\r', '\U{1C}', '\U{1D}', '\U{1E}', '\U{1F}', ' ',
    '\U{85}', '\U{A0}', '\U{1680}',
    '\U{2000}', '\U{2001}', '\U{2002}', '\U{2003}', '\U{2004}', '\U{2005}', '\U{2006}',
    '\U{2007}', '\U{2008}', '\U{2009}', '\U{200A}',
    '\U{2028}', '\U{2029}', '\U{202F}', '\U{205F}', '\U{3000}'
  }

  predicate IsSpace(c: char)
  {
    c in Whitespace
  }

  predicate AllSpace(s: string)
  {
    forall i :: 0 <= i < |s| ==> IsSpace(s[i])
  }

  /** `s` without its leading whitespace: a suffix of `s`, cut after a run of whitespace. */
  function TrimStart(s: string): (r: string)
    ensures |r| <= |s| && r == s[|s| - |r|..]
    ensures AllSpace(s[..|s| - |r|])
    ensures r == [] || !IsSpace(r[0])
    decreases |s|
  {
    if |s| > 0 && IsSpace(s[0]) then
      var r := TrimStart(s[1..]);
      assert forall k :: 1 <= k < |s| - |r| ==> s[k] == s[1..][..|s| - 1 - |r|][k - 1];
      r
    else s
  }

  /** `s` without its trailing whitespace: a prefix of `s`, followed in `s` by whitespace only. */
  function TrimEnd(s: string): (r: string)
    ensures |r| <= |s| && r == s[..|r|]
    ensures AllSpace(s[|r|..])
    ensures r == [] || !IsSpace(r[|r| - 1])
    decreases |s|
  {
    if |s| > 0 && IsSpace(s[|s| - 1]) then
      var r := TrimEnd(s[..|s| - 1]);
      assert forall k :: |r| <= k < |s| - 1 ==> s[k] == s[..|s| - 1][|r|..][k - |r|];
      r
    else s
  }

  /** `s` is whitespace, then `r` from offset `k`, then whitespace; `r` neither starts nor ends with whitespace. */
  ghost predicate StrippedAt(s: string, k: int, r: string)
  {
    && 0 <= k <= |s| - |r| && r == s[k..k + |r|] && AllSpace(s[..k]) && AllSpace(s[k + |r|..])
    && (r == [] || (!IsSpace(r[0]) && !IsSpace(r[|r| - 1])))
  }

  /** `r` is `s` with its surrounding whitespace removed. */
  ghost predicate StrippedOf(s: string, r: string)
  {
    exists k :: StrippedAt(s, k, r)
  }

  /** `s.strip()`. */
  function Strip(s: string): (r: string)
    ensures StrippedOf(s, r)
  {
    var t := TrimStart(s);
    var r := TrimEnd(t);
    var k := |s| - |t|;
    assert r == s[k..k + |r|];
    assert s[k + |r|..] == t[|r|..];
    assert StrippedAt(s, k, r);
    r
  }

  /** A string has only one stripped form, so any two strippings of it agree. */
  lemma StrippedUnique(s: string, r1: string, r2: string)
    requires StrippedOf(s, r1) && StrippedOf(s, r2)
    ensures r1 == r2
  {
    var k1 :| StrippedAt(s, k1, r1);
    var k2 :| StrippedAt(s, k2, r2);
    if r1 != [] && r2 != [] {
      SameStart(s, k1, r1, k2, r2);
      SameStart(s, k2, r2, k1, r1);
      SameEnd(s, k1, r1, k2, r2);
      SameEnd(s, k2, r2, k1, r1);
    } else if r1 != [] {
      NoContentInSpace(s, k2, k1, r1);
    } else if r2 != [] {
      NoContentInSpace(s, k1, k2, r2);
    }
  }

  lemma SameStart(s: string, k1: int, r1: string, k2: int, r2: string)
    requires StrippedAt(s, k1, r1) && StrippedAt(s, k2, r2) && r1 != [] && r2 != []
    ensures k1 >= k2
  {
    assert s[k1] == r1[0];
    if k1 < k2 {
      SpaceBefore(s, k2, k1);
    }
  }

  lemma SameEnd(s: string, k1: int, r1: string, k2: int, r2: string)
    requires StrippedAt(s, k1, r1) && StrippedAt(s, k2, r2) && r1 != [] && r2 != []
    ensures k1 + |r1| >= k2 + |r2|
  {
    assert s[k2 + |r2| - 1] == r2[|r2| - 1];
  }

  /** When the stripped form is empty, `s` is all whitespace and has no other stripped form. */
  lemma NoContentInSpace(s: string, k: int, k': int, r: string)
    requires StrippedAt(s, k, []) && StrippedAt(s, k', r)
    ensures r == []
  {
    assert r != [] ==> s[k'] == r[0];
    AllSpaceEverywhere(s, k);
  }

  lemma SpaceBefore(s: string, k: nat, i: nat)
    requires i < k <= |s| && AllSpace(s[..k])
    ensures IsSpace(s[i])
  {
    assert s[..k][i] == s[i];
  }

  lemma AllSpaceEverywhere(s: string, k: nat)
    requires k <= |s| && AllSpace(s[..k]) && AllSpace(s[k..])
    ensures AllSpace(s)
  {
    forall i | 0 <= i < |s|
      ensures IsSpace(s[i])
    {
      if i < k {
        assert s[..k][i] == s[i];
      } else {
        assert s[k..][i - k] == s[i];
      }
    }
  }

  /** Stripping twice is stripping once, and a string without surrounding whitespace is left as it is. */
  lemma StripIdempotent(s: string)
    ensures Strip(Strip(s)) == Strip(s)
  {
    var r := Strip(s);
    StripKeepsTrimmed(r);
  }

  lemma StripKeepsTrimmed(s: string)
    requires s == [] || (!IsSpace(s[0]) && !IsSpace(s[|s| - 1]))
    ensures Strip(s) == s
  {
  }
}

/**
 * Python's `str.strip()` with no argument: removes every leading and trailing
 * character for which `str.isspace()` holds.
 */
module Text {

  /** The characters Python's `str.isspace()` accepts. */
  predicate IsSpace(c: char)
  {
    || '\t' <= c <= '\r'                     // tab, newline, vertical tab, form feed, carriage return
    || '\U{1C}' <= c <= '\U{1F}'             // information separators
    || c == ' ' || c == '\U{85}' || c == '\U{A0}' || c == '\U{1680}'
    || '\U{2000}' <= c <= '\U{200A}'
    || c == '\U{2028}' || c == '\U{2029}' || c == '\U{202F}' || c == '\U{205F}' || c == '\U{3000}'
  }

  /** True when `s` neither starts nor ends with whitespace. */
  predicate Stripped(s: string)
  {
    s == [] || (!IsSpace(s[0]) && !IsSpace(s[|s| - 1]))
  }

  /** `r` is the part of `s` from `i` on, and everything before `i` is whitespace. */
  ghost predicate DropsLeading(s: string, i: int, r: string)
  {
    0 <= i <= |s| && r == s[i..] && forall k :: 0 <= k < i ==> IsSpace(s[k])
  }

  /** `r` is `s[i..i+|r|]` and everything outside that slice is whitespace. */
  ghost predicate StripsTo(s: string, i: int, r: string)
  {
    && 0 <= i && i + |r| <= |s|
    && r == s[i..i + |r|]
    && (forall k :: 0 <= k < i ==> IsSpace(s[k]))
    && (forall k :: i + |r| <= k < |s| ==> IsSpace(s[k]))
  }

  /** `str.lstrip()`: the longest suffix of `s` that does not start with whitespace. */
  function TrimStart(s: string): (r: string)
    ensures |r| <= |s|
    ensures r == [] || !IsSpace(r[0])
  {
    if s != [] && IsSpace(s[0]) then TrimStart(s[1..]) else s
  }

  /** `str.rstrip()`: the longest prefix of `s` that does not end with whitespace. */
  function TrimEnd(s: string): (r: string)
    ensures |r| <= |s|
    ensures r == [] || !IsSpace(r[|r| - 1])
  {
    if s != [] && IsSpace(s[|s| - 1]) then TrimEnd(s[..|s| - 1]) else s
  }

  /** `lstrip()` removes a run of whitespace from the front and nothing else. */
  lemma {:induction false} TrimStartDrops(s: string)
    ensures DropsLeading(s, |s| - |TrimStart(s)|, TrimStart(s))
  {
    if s != [] && IsSpace(s[0]) {
      TrimStartDrops(s[1..]);
      assert s[1..][|s| - 1 - |TrimStart(s)|..] == s[|s| - |TrimStart(s)|..];
    }
  }

  /** `rstrip()` removes a run of whitespace from the back and nothing else. */
  lemma {:induction false} TrimEndKeeps(s: string)
    ensures TrimEnd(s) == s[..|TrimEnd(s)|]
    ensures forall k :: |TrimEnd(s)| <= k < |s| ==> IsSpace(s[k])
  {
    if s != [] && IsSpace(s[|s| - 1]) {
      TrimEndKeeps(s[..|s| - 1]);
      assert s[..|s| - 1][..|TrimEnd(s)|] == s[..|TrimEnd(s)|];
    }
  }

  /** `str.strip()`: the result never starts or ends with whitespace. */
  function Trim(s: string): (r: string)
    ensures |r| <= |s|
    ensures Stripped(r)
  {
    var t := TrimStart(s);
    TrimEndKeeps(t);
    TrimEnd(t)
  }

  /** `strip()` cuts a run of whitespace off each end of `s` and keeps the middle intact. */
  lemma TrimSpec(s: string)
    ensures StripsTo(s, |s| - |TrimStart(s)|, Trim(s))
  {
    var t := TrimStart(s);
    var r := TrimEnd(t);
    var i := |s| - |t|;
    TrimStartDrops(s);
    TrimEndKeeps(t);
    assert t == s[i..];
    assert r == t[..|r|];
    assert r == s[i..i + |r|];
    forall k | i + |r| <= k < |s| ensures IsSpace(s[k]) {
      assert s[k] == t[k - i];
    }
  }

  /** When `s[..i]` is whitespace and `s[i]` is not, `lstrip()` cuts exactly at `i`. */
  lemma {:induction false} TrimStartAt(s: string, i: int)
    requires 0 <= i <= |s| && (i == |s| || !IsSpace(s[i]))
    requires forall k :: 0 <= k < i ==> IsSpace(s[k])
    ensures TrimStart(s) == s[i..]
  {
    if i > 0 {
      TrimStartAt(s[1..], i - 1);
      assert s[1..][i - 1..] == s[i..];
    }
  }

  /** When `s[j..]` is whitespace and `s[j - 1]` is not, `rstrip()` cuts exactly at `j`. */
  lemma {:induction false} TrimEndAt(s: string, j: int)
    requires 0 <= j <= |s| && (j == 0 || !IsSpace(s[j - 1]))
    requires forall k :: j <= k < |s| ==> IsSpace(s[k])
    ensures TrimEnd(s) == s[..j]
  {
    if j < |s| {
      TrimEndAt(s[..|s| - 1], j);
      assert s[..|s| - 1][..j] == s[..j];
    }
  }

  /** Stripping already stripped text changes nothing, so `strip()` is idempotent. */
  lemma {:induction false} TrimOfStripped(s: string)
    requires Stripped(s)
    ensures Trim(s) == s
  {
    TrimStartAt(s, 0);
    TrimEndAt(s, |s|);
  }

  lemma {:induction false} TrimIdempotent(s: string)
    ensures Trim(Trim(s)) == Trim(s)
  {
    TrimOfStripped(Trim(s));
  }

  /**
   * `Trim` is the only way to cut whitespace off both ends of `s` that leaves
   * a stripped string: any such cut yields exactly `Trim(s)`.
   */
  lemma TrimUnique(s: string, i: int, r: string)
    requires StripsTo(s, i, r) && Stripped(r)
    ensures r == Trim(s)
  {
    if r == [] {
      TrimStartAt(s, |s|);
    } else {
      assert r[0] == s[i];
      TrimStartAt(s, i);
      var t := s[i..];
      assert r[|r| - 1] == t[|r| - 1];
      forall k | |r| <= k < |t| ensures IsSpace(t[k]) {
        assert t[k] == s[i + k];
      }
      TrimEndAt(t, |r|);
    }
  }
}

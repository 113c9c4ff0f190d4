/** `bytes.find`, which `read_until_sub` rescans the read buffer with, and
    the facts about it that make the rescan from `len(data) - len(sub)`
    sound. */
module Search {
  import opened Common

  /** `sub` occurs in `s` starting at `j`. */
  ghost predicate OccursAt(s: Bytes, sub: Bytes, j: nat)
  {
    j + |sub| <= |s| && s[j..j + |sub|] == sub
  }

  /** No occurrence of `sub` in `s` starts before `k`. */
  ghost predicate NoneBefore(s: Bytes, sub: Bytes, k: nat)
  {
    forall j :: 0 <= j < k ==> !OccursAt(s, sub, j)
  }

  /** `s.find(sub)`: the first position where `sub` occurs, or -1. */
  function Find(s: Bytes, sub: Bytes): (i: int)
    ensures -1 <= i <= |s|
    ensures i >= 0 ==> OccursAt(s, sub, i) && NoneBefore(s, sub, i)
    ensures i == -1 ==> NoneBefore(s, sub, |s| + 1)
    decreases |s|
  {
    if |sub| <= |s| && s[..|sub|] == sub then 0
    else if s == [] then -1
    else
      var k := Find(s[1..], sub);
      ShiftOccurrence(s, sub);
      assert !OccursAt(s, sub, 0) by {
        if |sub| <= |s| { assert s[0..|sub|] == s[..|sub|]; }
      }
      if k < 0 then -1 else k + 1
  }

  /** An occurrence in `s[1..]` is one in `s`, one place later. */
  lemma ShiftOccurrence(s: Bytes, sub: Bytes)
    requires s != []
    ensures forall j :: 1 <= j ==> (OccursAt(s, sub, j) <==> OccursAt(s[1..], sub, j - 1))
  {
    forall j | 1 <= j
      ensures OccursAt(s, sub, j) <==> OccursAt(s[1..], sub, j - 1)
    {
      if j + |sub| <= |s| {
        assert s[1..][j - 1..j - 1 + |sub|] == s[j..j + |sub|];
      }
    }
  }

  /** `find` gives the first occurrence: any occurrence with none before it
      is the one `find` returns. */
  lemma FindIsFirst(s: Bytes, sub: Bytes, k: nat)
    requires OccursAt(s, sub, k) && NoneBefore(s, sub, k)
    ensures Find(s, sub) == k
  {
  }

  /** An occurrence found in a prefix of the data is still the first once
      more data arrives. */
  lemma FindInPrefix(s: Bytes, more: Bytes, sub: Bytes)
    requires Find(s, sub) >= 0
    ensures Find(s + more, sub) == Find(s, sub)
  {
    var k := Find(s, sub);
    assert (s + more)[k..k + |sub|] == s[k..k + |sub|];
    forall j | 0 <= j < k
      ensures !OccursAt(s + more, sub, j)
    {
      assert j + |sub| <= |s|;
      assert (s + more)[j..j + |sub|] == s[j..j + |sub|];
      assert !OccursAt(s, sub, j);
    }
    FindIsFirst(s + more, sub, k);
  }

  /** Searching from `off` when nothing occurs before it finds the first
      occurrence overall. */
  lemma {:induction false} FindFrom(s: Bytes, sub: Bytes, off: nat)
    requires off <= |s| && NoneBefore(s, sub, off)
    ensures Find(s[off..], sub) >= 0 ==> Find(s, sub) == off + Find(s[off..], sub)
    ensures Find(s[off..], sub) < 0 ==> NoneBefore(s, sub, |s| + 1)
  {
    var t := s[off..];
    var f := Find(t, sub);
    if f >= 0 {
      FoundFrom(s, sub, off, t, f);
      FindIsFirst(s, sub, off + f);
    } else {
      MissedFrom(s, sub, off, t);
    }
  }

  /** An occurrence in `s[off..]` at `j - off` is one in `s` at `j`, and
      the other way round. */
  lemma OccursShifted(s: Bytes, sub: Bytes, off: nat, j: nat)
    requires off <= j && off <= |s|
    ensures OccursAt(s[off..], sub, j - off) <==> OccursAt(s, sub, j)
  {
    if j + |sub| <= |s| {
      assert s[off..][j - off..j - off + |sub|] == s[j..j + |sub|];
    }
  }

  /** The found half of `FindFrom`: a first occurrence at `f` in
      `s[off..]` is a first occurrence at `off + f` in `s`. */
  lemma {:induction false} FoundFrom(s: Bytes, sub: Bytes, off: nat, t: Bytes, f: nat)
    requires off <= |s| && t == s[off..] && NoneBefore(s, sub, off)
    requires OccursAt(t, sub, f) && NoneBefore(t, sub, f)
    ensures OccursAt(s, sub, off + f) && NoneBefore(s, sub, off + f)
  {
    OccursShifted(s, sub, off, off + f);
    forall j | off <= j < off + f
      ensures !OccursAt(s, sub, j)
    {
      OccursShifted(s, sub, off, j);
    }
  }

  /** The missed half of `FindFrom`. */
  lemma {:induction false} MissedFrom(s: Bytes, sub: Bytes, off: nat, t: Bytes)
    requires off <= |s| && t == s[off..] && NoneBefore(s, sub, off) && NoneBefore(t, sub, |t| + 1)
    ensures NoneBefore(s, sub, |s| + 1)
  {
    forall j | off <= j < |s| + 1
      ensures !OccursAt(s, sub, j)
    {
      OccursShifted(s, sub, off, j);
    }
  }

  /** The search of `read_until_sub` hits: `data[off:].find(sub)` found an
      occurrence and none starts before `off`, so it is the first in `data`,
      lies wholly in `data`, and stays first whatever follows `data`. */
  lemma FoundInBuffer(data: Bytes, rest: Bytes, sub: Bytes, off: nat)
    requires off <= |data| && NoneBefore(data, sub, off) && Find(data[off..], sub) >= 0
    ensures Find(data, sub) == off + Find(data[off..], sub) && Find(data, sub) + |sub| <= |data|
    ensures Find(data + rest, sub) == Find(data, sub)
  {
    FindFrom(data, sub, off);
    FindInPrefix(data, rest, sub);
  }

  /** After a miss on `miss`, a prefix of `s`, the first occurrence in
      `s` ends past `miss`. */
  lemma FindPastMiss(s: Bytes, miss: Bytes, sub: Bytes)
    requires |miss| <= |s| && s[..|miss|] == miss && NoneBefore(miss, sub, |miss| + 1) && Find(s, sub) >= 0
    ensures Find(s, sub) + |sub| > |miss|
  {
    PrefixOccurrence(s, miss, sub, Find(s, sub));
  }

  /** An occurrence in `s` that ends within its prefix `miss` is one in
      `miss`. */
  lemma PrefixOccurrence(s: Bytes, miss: Bytes, sub: Bytes, j: nat)
    requires |miss| <= |s| && s[..|miss|] == miss
    ensures OccursAt(s, sub, j) && j + |sub| <= |miss| ==> OccursAt(miss, sub, j)
  {
    if OccursAt(s, sub, j) && j + |sub| <= |miss| {
      assert miss[j..j + |sub|] == s[j..j + |sub|];
    }
  }

  /** The lookback of `read_until_sub`: after a miss on `data`, an
      occurrence in `data + more` cannot start before
      `max(0, len(data) - len(sub))`, so the rescan can start there. */
  lemma LookbackSound(data: Bytes, more: Bytes, sub: Bytes)
    requires NoneBefore(data, sub, |data| + 1)
    ensures NoneBefore(data + more, sub, Max(0, |data| - |sub|))
  {
    forall j | 0 <= j < Max(0, |data| - |sub|)
      ensures !OccursAt(data + more, sub, j)
    {
      assert (data + more)[j..j + |sub|] == data[j..j + |sub|];
      assert !OccursAt(data, sub, j);
    }
  }
}

/** The free-sector map the file header allocates from. Only the four
    operations the header uses are modelled: Find, Test, Clear and NumClear.
    A bit that is true is a sector in use; a clear bit is a free sector. Find
    takes the lowest clear bit, as nachos' BitMap does. */
module BitMaps {

  /** Number of clear bits. */
  function CountClear(b: seq<bool>): (r: nat)
    ensures r <= |b|
  {
    if |b| == 0 then 0 else CountClear(b[..|b| - 1]) + (if b[|b| - 1] then 0 else 1)
  }

  /** The lowest clear bit, or -1 when every bit is set. */
  function LowestClear(b: seq<bool>): (r: int)
    ensures -1 <= r < |b|
  {
    if |b| == 0 then -1
    else if !b[0] then 0
    else
      var r := LowestClear(b[1..]);
      if r < 0 then -1 else r + 1
  }

  /** LowestClear finds a clear bit below which every bit is set, and finds
      none only when every bit is set. */
  lemma {:induction false} LowestClearIsLowest(b: seq<bool>)
    ensures LowestClear(b) >= 0 ==> !b[LowestClear(b)] && forall i :: 0 <= i < LowestClear(b) ==> b[i]
    ensures LowestClear(b) == -1 ==> forall i :: 0 <= i < |b| ==> b[i]
  {
    if |b| > 0 && b[0] {
      LowestClearIsLowest(b[1..]);
      assert forall i :: 1 <= i < |b| ==> b[i] == b[1..][i - 1];
    }
  }

  /** Mark sector s as in use; a sector outside the map (Find's -1) marks nothing. */
  function Mark(b: seq<bool>, s: int): seq<bool>
  {
    if 0 <= s < |b| then b[s := true] else b
  }

  /** Mark sector s as free; a sector outside the map changes nothing. */
  function Unmark(b: seq<bool>, s: int): seq<bool>
  {
    if 0 <= s < |b| then b[s := false] else b
  }

  /** No sector number occurs twice. */
  ghost predicate Distinct(s: seq<int>)
  {
    forall i, j :: 0 <= i < j < |s| ==> s[i] != s[j]
  }

  /** Every sector of s is inside the map and marked in use. */
  ghost predicate Marked(b: seq<bool>, s: seq<int>)
  {
    forall x :: x in s ==> 0 <= x < |b| && b[x]
  }

  /** Every sector of s is inside the map and free. */
  ghost predicate AllClear(b: seq<bool>, s: seq<int>)
  {
    forall x :: x in s ==> 0 <= x < |b| && !b[x]
  }

  /** The sectors handed out by k successive calls of Find, in order, and the
      map afterwards. */
  function FindN(b: seq<bool>, k: nat): (r: (seq<int>, seq<bool>))
    ensures |r.0| == k && |r.1| == |b|
  {
    if k == 0 then ([], b)
    else
      var p := FindN(b, k - 1);
      var s := LowestClear(p.1);
      (p.0 + [s], Mark(p.1, s))
  }

  /** The map after clearing the sectors of s one after the other. */
  function ClearAll(b: seq<bool>, s: seq<int>): (r: seq<bool>)
    ensures |r| == |b|
  {
    if |s| == 0 then b else Unmark(ClearAll(b, s[..|s| - 1]), s[|s| - 1])
  }

  /** The map has no clear bit exactly when Find would return -1. */
  lemma {:induction false} NoClearIffFull(b: seq<bool>)
    ensures CountClear(b) == 0 <==> LowestClear(b) == -1
  {
    LowestClearIsLowest(b);
    if |b| > 0 {
      LowestClearIsLowest(b[..|b| - 1]);
      var init := b[..|b| - 1];
      NoClearIffFull(init);
      if LowestClear(init) != -1 {
        assert !b[LowestClear(init)];
      }
      if LowestClear(b) != -1 {
        var r := LowestClear(b);
        if r < |b| - 1 {
          assert init[r] == b[r];
        }
      }
    }
  }

  /** Changing one bit changes the clear count by at most one, as expected. */
  lemma {:induction false} CountClearUpdate(b: seq<bool>, i: int, v: bool)
    requires 0 <= i < |b|
    ensures CountClear(b[i := v]) ==
            CountClear(b) - (if b[i] then 0 else 1) + (if v then 0 else 1)
  {
    var n := |b| - 1;
    if i < n {
      assert b[i := v][..n] == b[..n][i := v];
      CountClearUpdate(b[..n], i, v);
    } else {
      assert b[i := v][..n] == b[..n];
    }
  }

  /** k calls of Find, when at least k bits are clear, hand out k distinct
      sectors that were free, mark exactly those, and leave k fewer clear. */
  lemma {:induction false} FindNClaims(b: seq<bool>, k: nat)
    requires k <= CountClear(b)
    ensures Distinct(FindN(b, k).0)
    ensures AllClear(b, FindN(b, k).0)
    ensures forall i :: 0 <= i < |b| ==> FindN(b, k).1[i] == (b[i] || i in FindN(b, k).0)
    ensures CountClear(FindN(b, k).1) == CountClear(b) - k
  {
    if k > 0 {
      FindNClaims(b, k - 1);
      var p := FindN(b, k - 1);
      var s := LowestClear(p.1);
      NoClearIffFull(p.1);
      LowestClearIsLowest(p.1);
      assert 0 <= s < |b| && !p.1[s];
      assert s !in p.0 && !b[s];
      var r := FindN(b, k);
      assert r.0 == p.0 + [s] && r.1 == p.1[s := true];
      forall i, j | 0 <= i < j < |r.0| ensures r.0[i] != r.0[j] {
        if j < |p.0| {
          assert r.0[i] == p.0[i] && r.0[j] == p.0[j];
        } else {
          assert r.0[i] == p.0[i] && r.0[j] == s;
        }
      }
      forall x | x in r.0 ensures 0 <= x < |b| && !b[x] {
        if x != s {
          assert x in p.0;
        }
      }
      forall i | 0 <= i < |b| ensures r.1[i] == (b[i] || i in r.0) {
        assert (i in r.0) == (i in p.0 || i == s);
      }
      CountClearUpdate(p.1, s, true);
    }
  }

  /** Clearing a sequence of sectors frees exactly those sectors. */
  lemma {:induction false} ClearAllAt(b: seq<bool>, s: seq<int>)
    ensures forall i :: 0 <= i < |b| ==> ClearAll(b, s)[i] == (b[i] && i !in s)
  {
    if |s| > 0 {
      ClearAllAt(b, s[..|s| - 1]);
      assert s == s[..|s| - 1] + [s[|s| - 1]];
    }
  }

  /** Clearing distinct marked sectors adds exactly their number to the
      clear count. */
  lemma {:induction false} ClearAllCount(b: seq<bool>, s: seq<int>)
    requires Distinct(s) && Marked(b, s)
    ensures CountClear(ClearAll(b, s)) == CountClear(b) + |s|
  {
    if |s| > 0 {
      var init := s[..|s| - 1];
      var x := s[|s| - 1];
      assert Marked(b, init) by {
        forall y | y in init ensures 0 <= y < |b| && b[y] {
          assert y in s;
        }
      }
      ClearAllCount(b, init);
      ClearAllAt(b, init);
      assert x in s && x !in init;
      CountClearUpdate(ClearAll(b, init), x, false);
    }
  }

  /** Clearing the sectors two runs of Find handed out, one run after the
      other, is clearing them in one go. */
  lemma {:induction false} ClearAllAppend(b: seq<bool>, s: seq<int>, t: seq<int>)
    ensures ClearAll(b, s + t) == ClearAll(ClearAll(b, s), t)
  {
    ClearAllAt(b, s + t);
    ClearAllAt(b, s);
    ClearAllAt(ClearAll(b, s), t);
    assert forall i :: 0 <= i < |b| ==> ClearAll(b, s + t)[i] == ClearAll(ClearAll(b, s), t)[i];
  }

  /** When the sectors of s + t are distinct and marked, so are those of s,
      and those of t are still marked once s has been cleared. */
  lemma ClearPrefixKeepsRest(b: seq<bool>, s: seq<int>, t: seq<int>)
    requires Distinct(s + t) && Marked(b, s + t)
    ensures Distinct(s) && Marked(b, s)
    ensures Distinct(t) && Marked(ClearAll(b, s), t)
  {
    assert forall i :: 0 <= i < |s| ==> (s + t)[i] == s[i];
    assert forall i :: 0 <= i < |t| ==> (s + t)[|s| + i] == t[i];
    forall x | x in s ensures 0 <= x < |b| && b[x] {
      assert x in s + t;
    }
    ClearAllAt(b, s);
    forall x | x in t ensures 0 <= x < |b| && ClearAll(b, s)[x] {
      assert x in s + t;
      var k :| 0 <= k < |t| && t[k] == x;
      forall m | 0 <= m < |s| ensures s[m] != x {
        assert (s + t)[m] == s[m] && (s + t)[|s| + k] == x;
      }
    }
  }

  /** Clearing a distinct, marked run p + m + [x] in three steps, as
      Deallocate does: each step finds its sectors distinct and marked, and
      the result is that of clearing the whole run. */
  lemma ClearInThree(b: seq<bool>, p: seq<int>, m: seq<int>, x: int)
    requires Distinct(p + m + [x]) && Marked(b, p + m + [x])
    ensures Distinct(p) && Marked(b, p)
    ensures Distinct(m) && Marked(ClearAll(b, p), m)
    ensures 0 <= x < |b| && ClearAll(ClearAll(b, p), m)[x]
    ensures ClearAll(b, p + m + [x]) == Unmark(ClearAll(ClearAll(b, p), m), x)
  {
    var all := p + m + [x];
    assert all[..|all| - 1] == p + m && all[|all| - 1] == x;
    ClearPrefixKeepsRest(b, p + m, [x]);
    ClearPrefixKeepsRest(b, p, m);
    ClearAllAppend(b, p, m);
    assert x in [x];
  }

  /** The middle of a distinct sequence is distinct and shares no sector
      with the parts around it. */
  lemma DistinctMiddle(p: seq<int>, m: seq<int>, q: seq<int>)
    requires Distinct(p + m + q)
    ensures Distinct(m)
    ensures forall x :: x in m ==> x !in p && x !in q
  {
    var r := p + m + q;
    assert forall i :: 0 <= i < |m| ==> r[|p| + i] == m[i];
    forall x | x in m ensures x !in p && x !in q {
      var k :| 0 <= k < |m| && m[k] == x;
      forall i | 0 <= i < |p| ensures p[i] != x {
        assert r[i] == p[i];
      }
      forall i | 0 <= i < |q| ensures q[i] != x {
        assert r[|p| + |m| + i] == q[i];
      }
    }
  }

  /** Replacing the middle of a distinct sequence by a distinct sequence
      drawn from it keeps the whole distinct. */
  lemma DistinctJoin(p: seq<int>, m: seq<int>, q: seq<int>, m': seq<int>)
    requires Distinct(p + m + q) && Distinct(m')
    requires forall x :: x in m' ==> x in m
    ensures Distinct(p + m' + q)
  {
    var r, r' := p + m + q, p + m' + q;
    DistinctMiddle(p, m, q);
    assert Distinct(p) by {
      forall i, j | 0 <= i < j < |p| ensures p[i] != p[j] {
        assert r[i] == p[i] && r[j] == p[j];
      }
    }
    assert Distinct(q) by {
      forall i, j | 0 <= i < j < |q| ensures q[i] != q[j] {
        assert r[|p| + |m| + i] == q[i] && r[|p| + |m| + j] == q[j];
      }
    }
    assert forall x :: x in p ==> x !in q by {
      forall x | x in p ensures x !in q {
        var i :| 0 <= i < |p| && p[i] == x;
        forall j | 0 <= j < |q| ensures q[j] != x {
          assert r[i] == p[i] && r[|p| + |m| + j] == q[j];
        }
      }
    }
    forall i, j | 0 <= i < j < |r'| ensures r'[i] != r'[j] {
      if j < |p| {
        assert r'[i] == p[i] && r'[j] == p[j];
      } else if i >= |p| + |m'| {
        assert r'[i] == q[i - |p| - |m'|] && r'[j] == q[j - |p| - |m'|];
      } else if i >= |p| && j < |p| + |m'| {
        assert r'[i] == m'[i - |p|] && r'[j] == m'[j - |p|];
      } else if i < |p| && j < |p| + |m'| {
        assert r'[i] == p[i] && p[i] in p && r'[j] == m'[j - |p|] && r'[j] in m;
      } else if i < |p| {
        assert r'[i] == p[i] && p[i] in p && r'[j] == q[j - |p| - |m'|] && r'[j] in q;
      } else {
        assert r'[i] == m'[i - |p|] && r'[i] in m && r'[j] == q[j - |p| - |m'|] && r'[j] in q;
      }
    }
  }

  /** Running Find a times and then c times is running it a+c times. */
  lemma {:induction false} FindNSplit(b: seq<bool>, a: nat, c: nat)
    ensures FindN(b, a + c).0 == FindN(b, a).0 + FindN(FindN(b, a).1, c).0
    ensures FindN(b, a + c).1 == FindN(FindN(b, a).1, c).1
  {
    if c > 0 {
      FindNSplit(b, a, c - 1);
      var m := FindN(b, a);
      var p := FindN(b, a + c - 1);
      var q := FindN(m.1, c - 1);
      assert p.0 == m.0 + q.0 && p.1 == q.1;
      var s := LowestClear(p.1);
      assert FindN(b, a + c) == (p.0 + [s], Mark(p.1, s));
      assert FindN(m.1, c) == (q.0 + [s], Mark(q.1, s));
      assert (m.0 + q.0) + [s] == m.0 + (q.0 + [s]);
    }
  }

  /** Running Find a times, then c times, then once more: the last sector is
      a real one, distinct from every sector handed out before it. */
  lemma FindNThree(b: seq<bool>, a: nat, c: nat, n: nat)
    requires n == a + c + 1 && n <= CountClear(b)
    ensures var m := FindN(b, a);
            var q := FindN(m.1, c);
            var s := LowestClear(q.1);
            && FindN(b, n) == (m.0 + q.0 + [s], Mark(q.1, s))
            && 0 <= s < |b| && s !in m.0 && s !in q.0
  {
    var m := FindN(b, a);
    var q := FindN(m.1, c);
    FindNSplit(b, a, c);
    var p := FindN(b, a + c);
    assert p.0 == m.0 + q.0 && p.1 == q.1;
    var s := LowestClear(q.1);
    var all := FindN(b, n).0;
    assert FindN(b, n) == (p.0 + [s], Mark(p.1, s));
    FindNClaims(b, n);
    assert all[|all| - 1] == s;
    assert s in all;
    assert s !in p.0 by {
      forall j | 0 <= j < |p.0| ensures p.0[j] != s {
        assert all[j] == p.0[j];
      }
    }
    assert forall x :: x in m.0 ==> x in p.0;
    assert forall x :: x in q.0 ==> x in p.0;
  }

  /** Clearing what Find handed out gives back the map it started from. */
  lemma FindNThenClearAll(b: seq<bool>, k: nat)
    requires k <= CountClear(b)
    ensures ClearAll(FindN(b, k).1, FindN(b, k).0) == b
  {
    FindNClaims(b, k);
    ClearAllAt(FindN(b, k).1, FindN(b, k).0);
  }

  /** A sequence is distinct exactly when no sector occurs in it twice. */
  lemma {:induction false} DistinctMultiset(s: seq<int>)
    ensures Distinct(s) <==> forall x :: multiset(s)[x] <= 1
  {
    if |s| > 0 {
      var init, x := s[..|s| - 1], s[|s| - 1];
      assert s == init + [x];
      DistinctMultiset(init);
      assert multiset(s) == multiset(init) + multiset{x};
      if Distinct(s) {
        assert Distinct(init) by {
          forall i, j | 0 <= i < j < |init| ensures init[i] != init[j] {
            assert s[i] == init[i] && s[j] == init[j];
          }
        }
        assert x !in init by {
          forall i | 0 <= i < |init| ensures init[i] != x {
            assert s[i] == init[i];
          }
        }
      }
      if forall y :: multiset(s)[y] <= 1 {
        forall y ensures multiset(init)[y] <= 1 {
          assert multiset(s)[y] >= multiset(init)[y];
        }
        assert multiset(s)[x] == multiset(init)[x] + 1;
        forall i, j | 0 <= i < j < |s| ensures s[i] != s[j] {
          assert s[i] == init[i] && s[i] in init;
          if j < |s| - 1 {
            assert s[j] == init[j];
          }
        }
      }
    }
  }

  /** A run of distinct sectors in use, grown by distinct free sectors that
      are then marked, is still a run of distinct sectors in use. */
  lemma GrowExclusive(before: seq<int>, fill: seq<int>, after: seq<int>, b: seq<bool>, b': seq<bool>)
    requires Distinct(before) && Marked(b, before) && Distinct(fill) && AllClear(b, fill)
    requires multiset(after) == multiset(before) + multiset(fill)
    requires |b'| == |b| && forall i :: 0 <= i < |b| ==> b'[i] == (b[i] || i in fill)
    ensures Distinct(after) && Marked(b', after)
  {
    DistinctMultiset(before);
    DistinctMultiset(fill);
    forall x ensures multiset(after)[x] <= 1 {
      if x in before {
        assert x !in fill;
      }
    }
    DistinctMultiset(after);
    forall x | x in after ensures 0 <= x < |b'| && b'[x] {
      assert x in multiset(after);
      if x in before {
        assert 0 <= x < |b| && b[x];
      } else {
        assert x in multiset(fill);
        assert x in fill && 0 <= x < |b|;
      }
    }
  }

  /** The free-sector bitmap. */
  class BitMap {
    var bits: seq<bool>

    constructor (numBits: nat)
      ensures bits == seq(numBits, _ => false)
    {
      bits := seq(numBits, _ => false);
    }

    /** Claims the lowest clear sector and returns it, or -1 when none is clear. */
    method Find() returns (s: int)
      modifies this
      ensures s == LowestClear(old(bits))
      ensures bits == Mark(old(bits), s)
    {
      var i := 0;
      while i < |bits| && bits[i]
        invariant 0 <= i <= |bits|
        invariant forall j :: 0 <= j < i ==> bits[j]
      {
        i := i + 1;
      }
      LowestClearIsLowest(bits);
      if i == |bits| {
        s := -1;
      } else {
        s := i;
        bits := bits[i := true];
      }
    }

    /** Is sector s in use? */
    method Test(s: int) returns (inUse: bool)
      requires 0 <= s < |bits|
      ensures inUse == bits[s]
    {
      inUse := bits[s];
    }

    /** Frees sector s. */
    method Clear(s: int)
      requires 0 <= s < |bits|
      modifies this
      ensures bits == Unmark(old(bits), s)
    {
      bits := bits[s := false];
    }

    /** Counts the clear bits. */
    method NumClear() returns (n: nat)
      ensures n == CountClear(bits)
    {
      n := 0;
      var i := 0;
      while i < |bits|
        invariant 0 <= i <= |bits|
        invariant n == CountClear(bits[..i])
      {
        assert bits[..i + 1][..i] == bits[..i];
        if !bits[i] {
          n := n + 1;
        }
        i := i + 1;
      }
      assert bits[..|bits|] == bits;
    }
  }
}

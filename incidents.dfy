/** The security incidents: ordered pairs of distinct users (i, j) such that
    typing user i's password opens user j's account, because the system lets
    in any typed password that holds the right one as a contiguous substring. */
module Incidents {

  /** `pat` occurs in `text` as a contiguous run of characters (possibly the
      whole of `text`; the empty string occurs in every string). */
  ghost predicate IsSubstring(pat: string, text: string) {
    exists k :: OccursAt(pat, text, k)
  }

  /** `pat` occurs in `text` starting at position `k`. */
  ghost predicate OccursAt(pat: string, text: string, k: int) {
    0 <= k && k + |pat| <= |text| && text[k..k + |pat|] == pat
  }

  /** `text.includes(pat)`: try every start position from the left. */
  function Includes(text: string, pat: string): (r: bool)
    ensures r <==> IsSubstring(pat, text)
    decreases |text|
  {
    if |pat| > |text| then false
    else if pat <= text then
      assert OccursAt(pat, text, 0);
      true
    else
      SubstringOfTail(text, pat);
      Includes(text[1..], pat)
  }

  /** When `pat` is not a prefix of `text`, it occurs in `text` exactly when
      it occurs in `text` without its first character. */
  lemma SubstringOfTail(text: string, pat: string)
    requires |pat| <= |text| && !(pat <= text)
    ensures IsSubstring(pat, text) <==> IsSubstring(pat, text[1..])
  {
    assert text[..|pat|] != pat;
    if IsSubstring(pat, text[1..]) {
      var k :| OccursAt(pat, text[1..], k);
      assert text[k + 1..k + 1 + |pat|] == text[1..][k..k + |pat|];
      assert OccursAt(pat, text, k + 1);
    }
    if IsSubstring(pat, text) {
      var k :| OccursAt(pat, text, k);
      assert text[1..][k - 1..k - 1 + |pat|] == text[k..k + |pat|];
      assert OccursAt(pat, text[1..], k - 1);
    }
  }

  /** Every string holds itself, so two users with equal passwords break into
      each other's accounts. */
  lemma SelfSubstring(s: string)
    ensures IsSubstring(s, s)
  {
    assert OccursAt(s, s, 0);
  }

  /** The pair (i, j) is an incident: distinct users and `ps[j]` inside `ps[i]`. */
  ghost predicate IsIncident(ps: seq<string>, i: int, j: int)
    requires 0 <= i < |ps| && 0 <= j < |ps|
  {
    i != j && IsSubstring(ps[j], ps[i])
  }

  /** All incidents of the list: the number the program outputs is the size
      of this set. */
  ghost function IncidentPairs(ps: seq<string>): set<(int, int)> {
    set i, j | 0 <= i < |ps| && 0 <= j < |ps| && IsIncident(ps, i, j) :: (i, j)
  }

  /** The incidents whose typing user is one of the first `m`. */
  ghost function PairsInRows(ps: seq<string>, m: nat): set<(int, int)>
    requires m <= |ps|
  {
    set i, j | 0 <= i < m && 0 <= j < |ps| && IsIncident(ps, i, j) :: (i, j)
  }

  /** The incidents of typing user `i` whose victim is one of the first `m`. */
  ghost function PairsInRow(ps: seq<string>, i: nat, m: nat): set<(int, int)>
    requires i < |ps| && m <= |ps|
  {
    set j | 0 <= j < m && IsIncident(ps, i, j) :: (i, j)
  }

  /** Looking at one more victim `m` adds the pair (i, m) exactly when it is
      an incident. */
  lemma RowStep(ps: seq<string>, i: nat, m: nat)
    requires i < |ps| && m < |ps|
    ensures |PairsInRow(ps, i, m + 1)| == |PairsInRow(ps, i, m)| + if IsIncident(ps, i, m) then 1 else 0
  {
    if IsIncident(ps, i, m) {
      assert (i, m) !in PairsInRow(ps, i, m);
      assert PairsInRow(ps, i, m + 1) == PairsInRow(ps, i, m) + {(i, m)};
    } else {
      assert PairsInRow(ps, i, m + 1) == PairsInRow(ps, i, m);
    }
  }

  /** Finishing typing user `m` adds that user's row, which shares no pair
      with the earlier rows. */
  lemma RowsStep(ps: seq<string>, m: nat)
    requires m < |ps|
    ensures |PairsInRows(ps, m + 1)| == |PairsInRows(ps, m)| + |PairsInRow(ps, m, |ps|)|
  {
    var a, b := PairsInRows(ps, m), PairsInRow(ps, m, |ps|);
    assert forall p :: p in a ==> p.0 < m;
    assert forall p :: p in b ==> p.0 == m;
    assert a * b == {};
    assert PairsInRows(ps, m + 1) == a + b;
  }

  /** `retornaNumeroIncidentes`: for every typing user `i` and every account
      `j`, count the pair when the users differ and `ps[i]` includes `ps[j]`. */
  method CountIncidents(ps: seq<string>) returns (count: nat)
    ensures count == |IncidentPairs(ps)|
  {
    var n := |ps|;
    count := 0;
    for i := 0 to n
      invariant count == |PairsInRows(ps, i)|
    {
      for j := 0 to n
        invariant count == |PairsInRows(ps, i)| + |PairsInRow(ps, i, j)|
      {
        RowStep(ps, i, j);
        assert IsIncident(ps, i, j) == (i != j && Includes(ps[i], ps[j]));
        if i != j && Includes(ps[i], ps[j]) {
          count := count + 1;
        }
      }
      RowsStep(ps, i);
    }
    assert PairsInRows(ps, n) == IncidentPairs(ps);
  }

  /** A typing user breaks into at most every other account. */
  lemma {:induction false} RowBound(ps: seq<string>, i: nat, m: nat)
    requires i < |ps| && m <= |ps|
    ensures |PairsInRow(ps, i, m)| <= if i < m then m - 1 else m
  {
    if m > 0 {
      RowBound(ps, i, m - 1);
      RowStep(ps, i, m - 1);
      if m - 1 == i {
        assert !IsIncident(ps, i, m - 1);
      }
    }
  }

  lemma {:induction false} RowsBound(ps: seq<string>, m: nat)
    requires m <= |ps|
    ensures |PairsInRows(ps, m)| <= m * (|ps| - 1)
  {
    if m == 0 {
      assert PairsInRows(ps, 0) == {};
    } else {
      RowsBound(ps, m - 1);
      RowsStep(ps, m - 1);
      RowBound(ps, m - 1, |ps|);
      assert (m - 1) * (|ps| - 1) + (|ps| - 1) == m * (|ps| - 1);
    }
  }

  /** The count lies between 0 and n * (n - 1), and is 0 with fewer than two
      users. */
  lemma IncidentCountBounds(ps: seq<string>)
    ensures |IncidentPairs(ps)| <= |ps| * (|ps| - 1)
    ensures |ps| <= 1 ==> IncidentPairs(ps) == {}
  {
    RowsBound(ps, |ps|);
    assert PairsInRows(ps, |ps|) == IncidentPairs(ps);
  }

  /** Two users with the same password at distinct positions are counted
      once in each direction. */
  lemma DuplicatesCountTwice(ps: seq<string>, i: nat, j: nat)
    requires i < |ps| && j < |ps| && i != j && ps[i] == ps[j]
    ensures (i, j) in IncidentPairs(ps) && (j, i) in IncidentPairs(ps)
  {
    SelfSubstring(ps[i]);
  }

  /** The image of the set `s` under `f`. */
  ghost function Image<T, U>(s: set<T>, f: T -> U): set<U> {
    set x | x in s :: f(x)
  }

  /** An injective map keeps the size of a finite set. */
  lemma {:induction false} InjectiveImageSize<T, U>(s: set<T>, f: T -> U)
    requires forall x, y :: x in s && y in s && f(x) == f(y) ==> x == y
    ensures |Image(s, f)| == |s|
    decreases |s|
  {
    if s != {} {
      var x :| x in s;
      var rest := s - {x};
      InjectiveImageSize(rest, f);
      assert Image(s, f) == Image(rest, f) + {f(x)};
      assert f(x) !in Image(rest, f);
    }
  }

  /** The indices 0..n-1, a set of n elements. */
  ghost function Indices(n: nat): (r: set<int>)
    ensures forall k :: k in r <==> 0 <= k < n
    ensures |r| == n
  {
    if n == 0 then {} else Indices(n - 1) + {n - 1}
  }

  /** A subset as large as a finite set is the whole set. */
  lemma SubsetOfSameSize<T>(a: set<T>, b: set<T>)
    requires a <= b && |a| == |b|
    ensures a == b
  {
    var missing := b - a;
    assert b == a + missing;
    assert a * missing == {};
  }

  /** `p` lists each index 0..|p|-1 exactly once. */
  ghost predicate IsPermutation(p: seq<nat>) {
    (forall k :: 0 <= k < |p| ==> p[k] < |p|) &&
    (forall a, b :: 0 <= a < b < |p| ==> p[a] != p[b])
  }

  /** Distinct positions of a permutation hold distinct indices. */
  lemma PermutationInjective(p: seq<nat>)
    requires IsPermutation(p)
    ensures forall a, b :: 0 <= a < |p| && 0 <= b < |p| && p[a] == p[b] ==> a == b
  {
    forall a, b | 0 <= a < |p| && 0 <= b < |p| && a != b ensures p[a] != p[b] {
      if b < a {
        assert p[b] != p[a];
      }
    }
  }

  /** Position `k` to the index `p` holds there, as a total map on integers. */
  function AtMap(p: seq<nat>): int -> int {
    k => if 0 <= k < |p| then p[k] as int else k
  }

  /** A permutation's positions are mapped onto all indices. */
  lemma PermutationImage(p: seq<nat>)
    requires IsPermutation(p)
    ensures Image(Indices(|p|), AtMap(p)) == Indices(|p|)
  {
    var indices, at := Indices(|p|), AtMap(p);
    PermutationInjective(p);
    assert forall x, y :: x in indices && y in indices && at(x) == at(y) ==> x == y;
    InjectiveImageSize(indices, at);
    forall y | y in Image(indices, at) ensures y in indices {
      var x :| x in indices && at(x) == y;
    }
    SubsetOfSameSize(Image(indices, at), indices);
  }

  /** Every index is hit by a permutation. */
  lemma PermutationIsOnto(p: seq<nat>, a: nat)
    requires IsPermutation(p) && a < |p|
    ensures exists k :: 0 <= k < |p| && p[k] == a
  {
    var indices := Indices(|p|);
    assert a in Image(indices, AtMap(p)) by {
      PermutationImage(p);
      assert a in indices;
    }
    var k :| k in indices && AtMap(p)(k) == a;
    assert 0 <= k < |p| && p[k] == a;
  }

  /** Relabelling the users (moving each password to a new position by a
      permutation `p`) leaves the number of incidents unchanged: the pair
      (i, j) of the relabelled list is the pair (p[i], p[j]) of the old one. */
  lemma RelabelInvariant(ps: seq<string>, qs: seq<string>, p: seq<nat>)
    requires |p| == |ps| == |qs| && IsPermutation(p)
    requires forall k :: 0 <= k < |qs| ==> qs[k] == ps[p[k]]
    ensures |IncidentPairs(qs)| == |IncidentPairs(ps)|
  {
    var n := |p|;
    var move := (x: (int, int)) =>
      if 0 <= x.0 < n && 0 <= x.1 < n then (p[x.0] as int, p[x.1] as int) else x;
    var q := IncidentPairs(qs);
    PermutationInjective(p);
    InjectiveImageSize(q, move);
    var image := Image(q, move);
    forall y | y in image ensures y in IncidentPairs(ps) {
      var x :| x in q && y == move(x);
      assert x.0 != x.1;
      assert IsIncident(ps, p[x.0], p[x.1]);
    }
    forall y | y in IncidentPairs(ps) ensures y in image {
      PermutationIsOnto(p, y.0);
      PermutationIsOnto(p, y.1);
      var i :| 0 <= i < n && p[i] == y.0;
      var j :| 0 <= j < n && p[j] == y.1;
      assert IsIncident(qs, i, j);
      assert (i, j) in q;
      assert move((i, j)) == y;
    }
    assert image == IncidentPairs(ps);
  }
}

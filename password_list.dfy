/** Validation of the whole list of typed passwords: whether every entry has
    the password format, and which lines (numbered from 1) do not. */
module PasswordList {
  import opened PasswordFormat

  /** Every entry of `ps` has the password format. */
  ghost predicate AllConform(ps: seq<string>) {
    forall i :: 0 <= i < |ps| ==> IsValidPassword(ps[i])
  }

  /** The reduce of `verificarSenhasDigitadas` from the seed `acc`: fold `ps`
      from the left, conjoining the pattern test of each entry. */
  function ReduceAnd(acc: bool, ps: seq<string>): (r: bool)
    ensures r <==> acc && AllConform(ps)
  {
    if ps == [] then acc
    else
      assert forall i :: 1 <= i < |ps| ==> ps[1..][i - 1] == ps[i];
      ReduceAnd(acc && PatternTest(ps[0]), ps[1..])
  }

  /** `verificarSenhasDigitadas`: the reduce seeded with `true`. */
  function AllPasswordsValid(ps: seq<string>): (r: bool)
    ensures r <==> AllConform(ps)
    ensures ps == [] ==> r
  {
    ReduceAnd(true, ps)
  }

  /** The 1-based numbers of the non-conforming entries among the first `m`,
      in increasing order: the filter of `1..m` by "line fails the pattern". */
  function InvalidLinesUpTo(ps: seq<string>, m: nat): (r: seq<nat>)
    requires m <= |ps|
    ensures forall k :: k in r <==> 1 <= k <= m && !IsValidPassword(ps[k - 1])
    ensures forall a, b :: 0 <= a < b < |r| ==> r[a] < r[b]
  {
    if m == 0 then []
    else
      var before := InvalidLinesUpTo(ps, m - 1);
      assert forall a :: 0 <= a < |before| ==> before[a] in before;
      if PatternTest(ps[m - 1]) then before else before + [m]
  }

  /** The invalid lines of the whole list. */
  function InvalidLines(ps: seq<string>): (r: seq<nat>)
    ensures forall k :: k in r <==> 1 <= k <= |ps| && !IsValidPassword(ps[k - 1])
    ensures forall a, b :: 0 <= a < b < |r| ==> r[a] < r[b]
  {
    InvalidLinesUpTo(ps, |ps|)
  }

  /** `verificarLinhasSenhasForaPadrao`: walk the list once and push the line
      number of every entry the pattern rejects. */
  method CollectInvalidLines(ps: seq<string>) returns (lines: seq<nat>)
    ensures lines == InvalidLines(ps)
    ensures forall k :: k in lines <==> 1 <= k <= |ps| && !IsValidPassword(ps[k - 1])
  {
    lines := [];
    for index := 0 to |ps|
      invariant lines == InvalidLinesUpTo(ps, index)
    {
      if !PatternTest(ps[index]) {
        lines := lines + [index + 1];
      }
    }
  }

  /** The collector finds nothing exactly when the all-valid check passes;
      so when that check fails there is at least one line to report. */
  lemma {:induction false} InvalidLinesEmptyIffAllValid(ps: seq<string>)
    ensures InvalidLines(ps) == [] <==> AllPasswordsValid(ps)
    ensures !AllPasswordsValid(ps) ==> |InvalidLines(ps)| >= 1
  {
    var r := InvalidLines(ps);
    if r == [] {
      forall i | 0 <= i < |ps| ensures IsValidPassword(ps[i]) {
        assert i + 1 !in r;
      }
    } else {
      assert r[0] in r;
    }
  }
}

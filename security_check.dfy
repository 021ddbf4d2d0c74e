/** `verificarFalhasSeguranca`: the checks on the declared number of users
    and on the typed passwords, in their fixed order, and then the count. */
module SecurityCheck {
  import opened PasswordFormat
  import opened PasswordList
  import opened Incidents

  /** `maxEntradas`: the most users a verification accepts. */
  const MaxEntries: nat := 20000

  /** What a verification reports: one of the four rejections (the format
      error with the 1-based lines at fault) or the number of incidents. */
  datatype Outcome =
    | SingleUser
    | TooManyEntries
    | CountMismatch
    | FormatError(lines: seq<nat>)
    | Output(incidents: nat)

  /** The checks run in order and the first that fails decides: one user,
      then more users than `MaxEntries`, then a list whose length is not the
      declared count, then passwords out of format; only an input that passes
      all four is counted. */
  method CheckSecurityFlaws(n: int, ps: seq<string>) returns (r: Outcome)
    ensures n == 1 ==> r == SingleUser
    ensures n != 1 && n > MaxEntries ==> r == TooManyEntries
    ensures n != 1 && n <= MaxEntries && |ps| != n ==> r == CountMismatch
    ensures n != 1 && n <= MaxEntries && |ps| == n && !AllConform(ps) ==>
      r == FormatError(InvalidLines(ps)) && |r.lines| >= 1
    ensures n != 1 && n <= MaxEntries && |ps| == n && AllConform(ps) ==>
      r == Output(|IncidentPairs(ps)|)
    ensures r.Output? ==>
      0 <= n <= MaxEntries && n != 1 && |ps| == n && AllConform(ps) && r.incidents <= n * (n - 1)
  {
    if n == 1 {
      r := SingleUser;
    } else if n > MaxEntries {
      r := TooManyEntries;
    } else if |ps| != n {
      r := CountMismatch;
    } else if !AllPasswordsValid(ps) {
      var lines := CollectInvalidLines(ps);
      InvalidLinesEmptyIffAllValid(ps);
      r := FormatError(lines);
    } else {
      var count := CountIncidents(ps);
      IncidentCountBounds(ps);
      r := Output(count);
    }
  }

  /** Three nested passwords: "a" lies in "ab" and "abc", and "ab" in "abc". */
  lemma NestedPasswordsExample()
    ensures IncidentPairs(["a", "ab", "abc"]) == {(1, 0), (2, 0), (2, 1)}
    ensures |IncidentPairs(["a", "ab", "abc"])| == 3
  {
    var ps := ["a", "ab", "abc"];
    assert OccursAt(ps[0], ps[1], 0);
    assert OccursAt(ps[0], ps[2], 0);
    assert OccursAt(ps[1], ps[2], 0);
    assert !Includes(ps[0], ps[1]) && !Includes(ps[0], ps[2]) && !Includes(ps[1], ps[2]);
    assert IncidentPairs(ps) == {(1, 0), (2, 0), (2, 1)};
  }

  /** "ab" and "ba" do not hold each other. */
  lemma ReversedPairExample()
    ensures IncidentPairs(["ab", "ba"]) == {}
  {
    var ps := ["ab", "ba"];
    forall k ensures !OccursAt(ps[1], ps[0], k) && !OccursAt(ps[0], ps[1], k) {
      if k == 0 {
        assert ps[0][k..k + 2][0] == 'a' && ps[1][k..k + 2][0] == 'b';
      }
    }
    assert !IsSubstring(ps[1], ps[0]) && !IsSubstring(ps[0], ps[1]);
  }

  /** An uppercase first letter puts line 1 at fault. */
  lemma UppercaseLineExample()
    ensures InvalidLines(["A1", "b2"]) == [1]
  {
    var ps := ["A1", "b2"];
    assert !PatternTest(ps[0]) && PatternTest(ps[1]);
    assert InvalidLinesUpTo(ps, 1) == [1];
    assert InvalidLines(ps) == InvalidLinesUpTo(ps, 1);
  }

  /** A client of the dispatcher: the answers that follow from its contract
      on the sample inputs. */
  method Samples() {
    NestedPasswordsExample();
    var r := CheckSecurityFlaws(3, ["a", "ab", "abc"]);
    assert PatternTest("a") && PatternTest("ab") && PatternTest("abc");
    assert r == Output(3);

    ReversedPairExample();
    r := CheckSecurityFlaws(2, ["ab", "ba"]);
    assert PatternTest("ab") && PatternTest("ba");
    assert r == Output(0);

    r := CheckSecurityFlaws(1, ["Q"]);
    assert r == SingleUser;

    UppercaseLineExample();
    r := CheckSecurityFlaws(2, ["A1", "b2"]);
    assert !PatternTest("A1");
    assert r == FormatError([1]);

    r := CheckSecurityFlaws(3, ["a", "b"]);
    assert r == CountMismatch;

    r := CheckSecurityFlaws(20001, []);
    assert r == TooManyEntries;
  }
}

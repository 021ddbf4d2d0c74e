/** The text a verification prints. Numbers are interpolated the way a
    JavaScript template literal does it: an integer in decimal, an array of
    integers as their decimals joined by commas. */
module Messages {
  import opened SecurityCheck

  /** The decimal digit character for `d`. */
  function DigitChar(d: nat): (c: char)
    requires d < 10
    ensures '0' <= c <= '9'
  {
    ('0' as int + d) as char
  }

  /** The value of the digit character `c`. */
  function DigitValue(c: char): (d: nat)
    requires '0' <= c <= '9'
    ensures d < 10
  {
    c as int - '0' as int
  }

  predicate IsDigitString(s: string) {
    forall k :: 0 <= k < |s| ==> '0' <= s[k] <= '9'
  }

  /** `${n}` for a non-negative integer: its decimal digits, most significant
      first, with no leading zero. */
  function DecimalString(n: nat): (s: string)
    ensures |s| >= 1 && IsDigitString(s)
    ensures |s| > 1 ==> s[0] != '0'
  {
    if n < 10 then [DigitChar(n)] else DecimalString(n / 10) + [DigitChar(n % 10)]
  }

  /** The number a string of digits spells in decimal. */
  function DecimalValue(s: string): nat
    requires IsDigitString(s)
  {
    if s == [] then 0 else 10 * DecimalValue(s[..|s| - 1]) + DigitValue(s[|s| - 1])
  }

  /** Reading back the digits of `n` gives `n`. */
  lemma {:induction false} DecimalRoundTrip(n: nat)
    ensures DecimalValue(DecimalString(n)) == n
  {
    var s := DecimalString(n);
    if n < 10 {
      assert s[..0] == [];
    } else {
      DecimalRoundTrip(n / 10);
      assert s[..|s| - 1] == DecimalString(n / 10);
    }
  }

  /** Distinct numbers print differently. */
  lemma DecimalInjective(a: nat, b: nat)
    requires DecimalString(a) == DecimalString(b)
    ensures a == b
  {
    DecimalRoundTrip(a);
    DecimalRoundTrip(b);
  }

  /** `${array}` for an array of integers: `array.join(",")`. */
  function JoinWithCommas(ns: seq<nat>): (r: string)
    ensures r == [] <==> ns == []
    ensures forall k :: 0 <= k < |r| ==> r[k] == ',' || '0' <= r[k] <= '9'
  {
    if ns == [] then ""
    else if |ns| == 1 then DecimalString(ns[0])
    else DecimalString(ns[0]) + "," + JoinWithCommas(ns[1..])
  }

  /** The position of the first comma of `s`, or `|s|` if there is none. */
  function CommaIndex(s: string): (k: nat)
    ensures k <= |s|
    ensures forall i :: 0 <= i < k ==> s[i] != ','
    ensures k < |s| ==> s[k] == ','
  {
    if s == [] then 0
    else if s[0] == ',' then 0
    else 1 + CommaIndex(s[1..])
  }

  /** Split a comma-separated list of decimals back into numbers (fields that
      are not all digits read as 0). */
  function ParseLineList(s: string): seq<nat>
    decreases |s|
  {
    if s == [] then []
    else
      var k := CommaIndex(s);
      var field := s[..k];
      var value := if IsDigitString(field) then DecimalValue(field) else 0;
      if k == |s| then [value] else [value] + ParseLineList(s[k + 1..])
  }

  /** In a field of digits followed by the end or by a comma, the first
      comma comes right after the digits. */
  lemma CommaIndexAfterDigits(d: string, rest: string)
    requires IsDigitString(d)
    requires rest == [] || rest[0] == ','
    ensures CommaIndex(d + rest) == |d|
  {
    var s := d + rest;
    assert forall i :: 0 <= i < |d| ==> s[i] == d[i];
    assert rest != [] ==> s[|d|] == ',';
  }

  /** Reading back a joined list of line numbers gives the list. */
  lemma {:induction false} JoinRoundTrip(ns: seq<nat>)
    ensures ParseLineList(JoinWithCommas(ns)) == ns
  {
    if ns == [] {
    } else {
      var d := DecimalString(ns[0]);
      DecimalRoundTrip(ns[0]);
      if |ns| == 1 {
        CommaIndexAfterDigits(d, []);
        assert d + [] == d;
        assert d[..|d|] == d;
      } else {
        var tail := JoinWithCommas(ns[1..]);
        var s := d + "," + tail;
        CommaIndexAfterDigits(d, "," + tail);
        assert d + ("," + tail) == s;
        assert s[..|d|] == d;
        assert s[|d| + 1..] == tail;
        JoinRoundTrip(ns[1..]);
        assert tail != [] by {
          assert |DecimalString(ns[1])| >= 1;
          assert |ns[1..]| == 1 ==> tail == DecimalString(ns[1]);
        }
      }
    }
  }

  // The messages are assembled from short pieces so that the verifier can
  // look inside the literals; the text is the same as one long literal.
  const ErrorHead: string := "Erro: "
  const PasswordCountHead: string := "O número de senhas "
  const FormatHead: string := "a entrada contém "
  const SingleUserText: string :=
    "Não é possível fazer a verificação " +
    "de possibilidades de incidente de segurança " + "com apenas um usuário."
  const TooManyPrefix: string := ErrorHead + PasswordCountHead + "é maior que o máximo permitido ("
  const CountMismatchText: string :=
    ErrorHead + PasswordCountHead + "não corresponde à quantidade " + "de usuários no sistema."
  const OneInvalidPrefix: string := ErrorHead + FormatHead + "uma senha inválida na linha "
  const ManyInvalidPrefix: string := ErrorHead + FormatHead + "senhas inválidas nas linhas "
  const PatternRule: string :=
    " (padrão correto: inicia com letra minúscula sem acento " +
    "e possui apenas letras minúsculas sem acento " +
    "e dígitos de 0 a 9, com extensão mínima " +
    "de 1 caracter e máxima de 10 caracteres)."
  const OutputPrefix: string := "Saída: "

  /** The string `verificarFalhasSeguranca` returns for each outcome. The
      count, and the list of lines at fault, can be read back from it. */
  function Render(o: Outcome): (m: string)
    ensures o.Output? ==>
      OutputPrefix <= m && IsDigitString(m[|OutputPrefix|..]) &&
      DecimalValue(m[|OutputPrefix|..]) == o.incidents
    ensures o.FormatError? ==>
      var p := if |o.lines| == 1 then OneInvalidPrefix else ManyInvalidPrefix;
      |p| + |PatternRule| <= |m| && m[..|p|] == p && m[|m| - |PatternRule|..] == PatternRule &&
      ParseLineList(m[|p|..|m| - |PatternRule|]) == o.lines
  {
    match o
    case SingleUser => SingleUserText
    case TooManyEntries => TooManyPrefix + DecimalString(MaxEntries) + ")."
    case CountMismatch => CountMismatchText
    case FormatError(lines) =>
      var p := if |lines| == 1 then OneInvalidPrefix else ManyInvalidPrefix;
      var j := JoinWithCommas(lines);
      var m := p + j + PatternRule;
      JoinRoundTrip(lines);
      assert m[..|p|] == p && m[|p|..|m| - |PatternRule|] == j && m[|m| - |PatternRule|..] == PatternRule;
      m
    case Output(c) =>
      var m := OutputPrefix + DecimalString(c);
      DecimalRoundTrip(c);
      assert m[|OutputPrefix|..] == DecimalString(c);
      m
  }

  /** The too-many message cites the maximum, 20000. */
  lemma TooManyCitesMaximum()
    ensures Render(TooManyEntries) == TooManyPrefix + "20000" + ")."
  {
  }

  /** The singular wording is used exactly when one line is at fault. */
  lemma FormatErrorWording(lines: seq<nat>)
    ensures OneInvalidPrefix <= Render(FormatError(lines)) <==> |lines| == 1
    ensures ManyInvalidPrefix <= Render(FormatError(lines)) <==> |lines| != 1
  {
    var m := Render(FormatError(lines));
    assert OneInvalidPrefix[23] != ManyInvalidPrefix[23];
    if |lines| == 1 {
      assert m[..|OneInvalidPrefix|] == OneInvalidPrefix;
      assert m[23] == OneInvalidPrefix[23];
    } else {
      assert m[..|ManyInvalidPrefix|] == ManyInvalidPrefix;
      assert m[23] == ManyInvalidPrefix[23];
    }
  }

  /** Characters that tell the message shapes apart: the first one, the one
      after "Erro: ", and the one after "Erro: O número de senhas ". */
  lemma RenderMarkers(o: Outcome)
    ensures |Render(o)| > 6
    ensures o.SingleUser? ==> Render(o)[0] == 'N'
    ensures o.Output? ==> Render(o)[0] == 'S'
    ensures o.TooManyEntries? || o.CountMismatch? || o.FormatError? ==> Render(o)[0] == 'E'
    ensures o.TooManyEntries? || o.CountMismatch? ==> Render(o)[6] == 'O' && |Render(o)| > 25
    ensures o.FormatError? ==> Render(o)[6] == 'a'
    ensures o.TooManyEntries? ==> Render(o)[25] == 'é'
    ensures o.CountMismatch? ==> Render(o)[25] == 'n'
  {
    match o
    case SingleUser =>
      SingleUserMarkers();
    case TooManyEntries =>
      TooManyMarkers();
    case CountMismatch =>
      CountMismatchMarkers();
    case FormatError(lines) =>
      FormatErrorMarkers(lines);
    case Output(c) =>
      OutputMarkers(c);
  }

  lemma SingleUserMarkers()
    ensures |Render(SingleUser)| > 6 && Render(SingleUser)[0] == 'N'
  {
  }

  lemma TooManyMarkers()
    ensures var m := Render(TooManyEntries); |m| > 25 && m[0] == 'E' && m[6] == 'O' && m[25] == 'é'
  {
    assert TooManyPrefix[0] == 'E' && TooManyPrefix[6] == 'O' && TooManyPrefix[25] == 'é';
  }

  lemma CountMismatchMarkers()
    ensures var m := Render(CountMismatch); |m| > 25 && m[0] == 'E' && m[6] == 'O' && m[25] == 'n'
  {
    assert CountMismatchText[0] == 'E' && CountMismatchText[6] == 'O' && CountMismatchText[25] == 'n';
  }

  lemma FormatErrorMarkers(lines: seq<nat>)
    ensures var m := Render(FormatError(lines)); |m| > 6 && m[0] == 'E' && m[6] == 'a'
  {
    var m := Render(FormatError(lines));
    var p := if |lines| == 1 then OneInvalidPrefix else ManyInvalidPrefix;
    assert p[0] == 'E' && p[6] == 'a';
    assert m[..|p|] == p;
    assert m[0] == m[..|p|][0] && m[6] == m[..|p|][6];
  }

  lemma OutputMarkers(c: nat)
    ensures var m := Render(Output(c)); |m| > 6 && m[0] == 'S'
  {
    var m := Render(Output(c));
    assert OutputPrefix <= m;
    assert m[0] == OutputPrefix[0];
  }

  /** The message determines the outcome: which check failed, which lines
      were at fault, and how many incidents were counted. */
  lemma RenderInjective(a: Outcome, b: Outcome)
    requires Render(a) == Render(b)
    ensures a == b
  {
    var m := Render(a);
    RenderMarkers(a);
    RenderMarkers(b);
    if a.FormatError? && b.FormatError? {
      // Both messages use the same wording, so the line lists sit between
      // the same prefix and suffix and read back to the same list.
      FormatErrorWording(a.lines);
      FormatErrorWording(b.lines);
      assert (|a.lines| == 1) == (|b.lines| == 1);
    } else if a.Output? && b.Output? {
      // Both counts read back from the same digits.
    }
  }
}

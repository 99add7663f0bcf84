/**
 * The Portuguese locale: spelling one group (1..999) from fixed word tables
 * and composing the spelled groups with "mil", the million-and-up words and
 * the "e"-versus-comma join. This locale has no options, no currency and no
 * treatment of fraction groups of its own.
 */
module Portuguese {
  import opened Php
  import opened Lands

  /** The named numbers: 1..20, the tens and the hundreds ("cento" for one hundred). */
  const Words: map<int, string> := map[
    1 := "um", 2 := "dois", 3 := "três", 4 := "quatro", 5 := "cinco",
    6 := "seis", 7 := "sete", 8 := "oito", 9 := "nove", 10 := "dez",
    11 := "onze", 12 := "doze", 13 := "treze", 14 := "quatorze", 15 := "quinze",
    16 := "dezesseis", 17 := "dezessete", 18 := "dezoito", 19 := "dezenove",
    20 := "vinte", 30 := "trinta", 40 := "quarenta", 50 := "cinquenta",
    60 := "sessenta", 70 := "setenta", 80 := "oitenta", 90 := "noventa",
    100 := "cento", 200 := "duzentos", 300 := "trezentos", 400 := "quatrocentos",
    500 := "quinhentos", 600 := "seiscentos", 700 := "setecentos", 800 := "oitocentos",
    900 := "novecentos"]

  /** Roots of the magnitude words from the millions (key 2) up. */
  const MillionRoots: seq<string> :=
    ["milh", "bilh", "trilh", "quatrilh", "quintilh", "sextilh", "septilh", "octilh", "nonilh", "decilh"]

  const ZeroSpell := "zero"
  /** One hundred on its own. */
  const HundredSpell := "cem"
  const ThousandSpell := "mil"
  const DefaultSeparator := ", "
  const LastSeparator := " e "

  /** The keys of the word table. */
  predicate Named(n: int) {
    (1 <= n <= 20) || (20 <= n <= 90 && n % 10 == 0) || (100 <= n <= 900 && n % 100 == 0)
  }

  lemma WordsKeys(n: int)
    ensures n in Words <==> Named(n)
  {
    if 20 < n <= 90 && n % 10 == 0 {
      assert n == 30 || n == 40 || n == 50 || n == 60 || n == 70 || n == 80 || n == 90;
    }
    if 100 <= n <= 900 && n % 100 == 0 {
      assert n == 100 || n == 200 || n == 300 || n == 400 || n == 500 || n == 600 || n == 700 || n == 800 || n == 900;
    }
  }

  /** The table word of a named number. */
  function Word(n: int): (r: string)
    requires Named(n)
    ensures n in Words && r == Words[n]
  {
    WordsKeys(n);
    Words[n]
  }

  // ---------------------------------------------------------------------
  // One group

  /**
   * `simple`: "cem" for one hundred, the table word when there is one, and
   * otherwise the hundreds or tens word joined to the rest by " e "; null for
   * zero. The group's key is accepted and not used.
   */
  function Simple(n: nat, land: int): (r: Option<string>)
    requires n <= 999
    ensures r.None? <==> n == 0
    ensures n == 100 ==> r == Some(HundredSpell)
    ensures n != 100 && n in Words ==> r == Some(Words[n])
    decreases n
  {
    WordsKeys(n);
    if n == 100 then Some(HundredSpell)
    else if n in Words then Some(Words[n])
    else if n > 100 then
      WordsKeys(n / 100 * 100);
      Some(Words[n / 100 * 100] + LastSeparator + Simple(n % 100, land).value)
    else if n > 20 then
      WordsKeys(n / 10 * 10);
      WordsKeys(n % 10);
      Some(Words[n / 10 * 10] + LastSeparator + Words[n % 10])
    else None
  }

  /**
   * An independent reading of a group as at most three table numbers: the
   * hundreds, then the rest below one hundred as one named number or as tens
   * and units.
   */
  function Parts(n: nat): (r: seq<int>)
    requires 1 <= n <= 999
    ensures 1 <= |r| <= 3
    ensures forall i :: 0 <= i < |r| ==> Named(r[i])
  {
    var h, low := n / 100, n % 100;
    var lows := if low == 0 then [] else if Named(low) then [low] else [low / 10 * 10, low % 10];
    if h == 0 then lows else [h * 100] + lows
  }

  /** The words of a list of table numbers. */
  function WordsOf(parts: seq<int>): (r: seq<string>)
    requires forall i :: 0 <= i < |parts| ==> Named(parts[i])
    ensures |r| == |parts|
    ensures forall i :: 0 <= i < |parts| ==> r[i] == Word(parts[i])
  {
    if parts == [] then [] else [Word(parts[0])] + WordsOf(parts[1..])
  }

  lemma PartsBelowHundred(n: nat, land: int)
    requires 1 <= n <= 99
    ensures Simple(n, land) == Some(Implode(LastSeparator, WordsOf(Parts(n))))
  {
    WordsKeys(n);
    assert n / 100 == 0 && n % 100 == n;
    if n !in Words {
      var w := WordsOf(Parts(n));
      assert Parts(n) == [n / 10 * 10, n % 10];
      assert w[1..] == [Words[n % 10]];
    }
  }

  /**
   * Apart from one hundred on its own ("cem"), `simple` is the table words
   * of `Parts`, joined by " e ".
   */
  lemma SimpleIsParts(n: nat, land: int)
    requires 1 <= n <= 999 && n != 100
    ensures Simple(n, land) == Some(Implode(LastSeparator, WordsOf(Parts(n))))
  {
    if n < 100 {
      PartsBelowHundred(n, land);
    } else {
      WordsKeys(n);
      var low := n % 100;
      if low == 0 {
        assert n / 100 * 100 == n;
        assert Parts(n) == [n];
      } else {
        assert n !in Words;
        PartsBelowHundred(low, land);
        assert low / 100 == 0 && low % 100 == low;
        var rest := Parts(low);
        assert Parts(n) == [n / 100 * 100] + rest;
        var w := WordsOf(Parts(n));
        assert w[1..] == WordsOf(rest);
      }
    }
  }

  /** 100 is "cem" and 101 is "cento e um": "cento" only ever heads a compound. */
  lemma HundredExamples()
    ensures Simple(100, 0) == Some("cem")
    ensures Simple(101, 0) == Some("cento e um")
  {
    WordsKeys(101);
    WordsKeys(1);
    assert Words[100] == "cento" && Words[1] == "um";
    assert Simple(1, 0) == Some("um");
    assert Simple(101, 0) == Some(Words[100] + LastSeparator + Simple(1, 0).value);
    assert "cento" + " e " + "um" == "cento e um";
  }

  /** 21 is "vinte e um": tens and units joined by " e ". */
  lemma TwentyOne()
    ensures Simple(21, 0) == Some("vinte e um")
  {
    WordsKeys(21);
    WordsKeys(20);
    WordsKeys(1);
    assert Words[20] == "vinte" && Words[1] == "um";
    assert Simple(21, 0) == Some(Words[20] + LastSeparator + Words[1]);
    assert "vinte" + " e " + "um" == "vinte e um";
  }

  /** 999 is "novecentos e noventa e nove": hundreds, tens and units, each joined by " e ". */
  lemma NineNineNine()
    ensures Simple(999, 0) == Some("novecentos e noventa e nove")
  {
    NinetyNine();
    WordsKeys(999);
    WordsKeys(900);
    assert Words[900] == "novecentos";
    assert Simple(999, 0) == Some(Words[900] + LastSeparator + Simple(99, 0).value);
    assert "novecentos" + " e " + "noventa e nove" == "novecentos e noventa e nove";
  }

  lemma NinetyNine()
    ensures Simple(99, 0) == Some("noventa e nove")
  {
    WordsKeys(99);
    WordsKeys(90);
    WordsKeys(9);
    assert Words[90] == "noventa" && Words[9] == "nove";
    assert Simple(99, 0) == Some(Words[90] + LastSeparator + Words[9]);
    assert "noventa" + " e " + "nove" == "noventa e nove";
  }

  // ---------------------------------------------------------------------
  // Composing the groups

  /** The root of the magnitude word of key `k` from 2 up; a missing root reads as null. */
  function Root(k: int): string {
    if 0 <= k - 2 < |MillionRoots| then MillionRoots[k - 2] else ""
  }

  /** "ão" for one of a magnitude, "ões" for two or more. */
  function MillionSuffix(value: nat): string {
    if value >= 2 then "ões" else "ão"
  }

  /**
   * The suffix pass on one group: the thousands group becomes "mil" when it
   * is exactly one and takes " mil" otherwise; keys from 2 up take their
   * magnitude word; lower keys are left as they are.
   */
  function Suffix(e: Entry, l: Lands): (r: Entry)
    requires l.HasKey(e.key)
    ensures r.key == e.key
  {
    if e.key == 1 then
      if l.At(1) == 1 then Entry(1, ThousandSpell) else Entry(1, e.text + " " + ThousandSpell)
    else if e.key >= 2 then Entry(e.key, e.text + " " + Root(e.key) + MillionSuffix(l.At(e.key)))
    else e
  }

  function SuffixAll(s: seq<Entry>, l: Lands): (r: seq<Entry>)
    requires KeysIn(s, l)
    ensures |r| == |s|
    ensures forall i :: 0 <= i < |s| ==> r[i] == Suffix(s[i], l)
  {
    if s == [] then [] else [Suffix(s[0], l)] + SuffixAll(s[1..], l)
  }

  /** What the source's `format` accepts: ordered spelled groups, each naming a group of the number. */
  predicate FormatReady(spelled: seq<Entry>, l: Lands) {
    l.ints != [] && Ascending(spelled) && KeysIn(spelled, l)
  }

  /**
   * `format`: "zero" for no groups, a lone units group as it is, a lone
   * other group after its suffix, and otherwise the suffixed groups joined
   * highest first by the rule on the first land of the number.
   */
  function FormatSpec(spelled: seq<Entry>, l: Lands): string
    requires FormatReady(spelled, l)
  {
    if spelled == [] then ZeroSpell
    else if |spelled| == 1 && spelled[0].key == 0 then spelled[0].text
    else
      var out := SuffixAll(spelled, l);
      if |out| == 1 then out[0].text
      else JoinLands(DefaultSeparator, LastSeparator, Texts(out), l.First())
  }

  /** `format`: rewrite the spelled groups in place with their suffixes, then join them. */
  method Format(spelled: seq<Entry>, l: Lands) returns (result: string)
    requires FormatReady(spelled, l)
    ensures result == FormatSpec(spelled, l)
  {
    if spelled == [] {
      return ZeroSpell;
    }
    var count := |spelled|;
    if count == 1 && spelled[0].key == 0 {
      return spelled[0].text;
    }
    var out := spelled;
    var i := 0;
    while i < |out|
      invariant 0 <= i <= |out| == |spelled|
      invariant forall j :: 0 <= j < i ==> out[j] == Suffix(spelled[j], l)
      invariant forall j :: i <= j < |out| ==> out[j] == spelled[j]
    {
      out := out[i := Suffix(out[i], l)];
      i := i + 1;
    }
    assert out == SuffixAll(spelled, l);
    if count == 1 {
      return out[0].text;
    }
    result := JoinLands(DefaultSeparator, LastSeparator, Texts(out), l.First());
  }

  // ---------------------------------------------------------------------
  // Properties of the phrase

  /** After the suffix pass the thousands group reads exactly "mil" when it is one, and ends in " mil" otherwise. */
  lemma ThousandWord(s: seq<Entry>, l: Lands, i: nat)
    requires KeysIn(s, l) && i < |s| && s[i].key == 1
    ensures l.At(1) == 1 ==> SuffixAll(s, l)[i].text == "mil"
    ensures l.At(1) != 1 ==> SuffixAll(s, l)[i].text == s[i].text + " mil"
  {
  }

  /** After the suffix pass a group from the millions up keeps its words and takes the singular or plural magnitude word. */
  lemma MillionWord(s: seq<Entry>, l: Lands, i: nat)
    requires KeysIn(s, l) && i < |s| && 2 <= s[i].key <= 11
    ensures SuffixAll(s, l)[i].text == s[i].text + " " + MillionRoots[s[i].key - 2] + (if l.At(s[i].key) < 2 then "ão" else "ões")
  {
    var e := s[i];
    var root, ending := MillionRoots[e.key - 2], if l.At(e.key) < 2 then "ão" else "ões";
    assert Root(e.key) == root && MillionSuffix(l.At(e.key)) == ending;
    assert Suffix(e, l) == Entry(e.key, e.text + " " + root + ending);
    assert SuffixAll(s, l)[i] == Suffix(e, l);
  }

  /**
   * A single spelled group that is not the units group is that group after
   * its suffix.
   */
  lemma LoneGroup(e: Entry, l: Lands)
    requires l.ints != [] && l.HasKey(e.key) && e.key != 0
    ensures FormatReady([e], l)
    ensures FormatSpec([e], l) == Suffix(e, l).text
  {
    assert SuffixAll([e], l) == [Suffix(e, l)];
  }

  /**
   * Thousands and units: the thousands phrase ("mil" alone for one thousand),
   * then " e " or ", " as the first land selects, then the units words.
   */
  lemma Thousands(units: string, thousands: string, l: Lands)
    requires FormatReady([Entry(0, units), Entry(1, thousands)], l) && l.dec == [] && |l.ints| >= 2
    ensures FormatSpec([Entry(0, units), Entry(1, thousands)], l)
         == (if l.ints[1] == 1 then "mil" else thousands + " mil")
            + (if l.ints[0] <= 100 || l.ints[0] % 100 == 0 then " e " else ", ")
            + units
  {
    var s := [Entry(0, units), Entry(1, thousands)];
    var out := SuffixAll(s, l);
    assert out[0] == Entry(0, units);
    assert Texts(out) == [units, out[1].text];
    JoinLandsTwo(DefaultSeparator, LastSeparator, units, out[1].text, l.First());
  }

  /** "1001" is "mil e um"; "1101" is "mil, cento e um". */
  lemma OneThousandExamples()
    ensures FormatSpec([Entry(0, "um"), Entry(1, "um")], Lands([], [1, 1])) == "mil" + " e " + "um"
    ensures FormatSpec([Entry(0, "cento e um"), Entry(1, "um")], Lands([], [101, 1])) == "mil" + ", " + "cento e um"
  {
    Thousands("um", "um", Lands([], [1, 1]));
    Thousands("cento e um", "um", Lands([], [101, 1]));
  }

  /** "1000000" is "um milhão" and "2000000" is "dois milhões": the "um" of the millions is kept. */
  lemma MillionExamples()
    ensures FormatSpec([Entry(2, "um")], Lands([], [0, 0, 1])) == "um milhão"
    ensures FormatSpec([Entry(2, "dois")], Lands([], [0, 0, 2])) == "dois milhões"
  {
    LoneGroup(Entry(2, "um"), Lands([], [0, 0, 1]));
    LoneGroup(Entry(2, "dois"), Lands([], [0, 0, 2]));
  }
}

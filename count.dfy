/**
 * The speller: a number given as a string is cleaned, cut into three-digit
 * groups ("lands") keyed by magnitude, each group is spelled by the locale,
 * the groups that have no words (zero) are dropped, and the locale composes
 * the rest.
 */
module Count {
  import opened Php
  import opened Currencies
  import opened Lands
  import English
  import Portuguese

  // ---------------------------------------------------------------------
  // Cleaning the input

  /**
   * `normalizeNumber`: keep the digits and pad them with zeros, on the left
   * or on the right, to the next multiple of three.
   */
  function Normalize(number: string, padLeft: bool): (r: string)
    ensures AllDigits(r) && |r| % 3 == 0
    ensures |DigitsOnly(number)| <= |r| <= |DigitsOnly(number)| + 2
    ensures padLeft ==> r == Zeros(|r| - |DigitsOnly(number)|) + DigitsOnly(number)
    ensures !padLeft ==> r == DigitsOnly(number) + Zeros(|r| - |DigitsOnly(number)|)
  {
    var digits := DigitsOnly(number);
    var width := (|digits| + 2) / 3 * 3;
    PaddedDigits(digits, width - |digits|);
    if padLeft then PadLeft(digits, width) else PadRight(digits, width)
  }

  lemma PaddedDigits(digits: string, n: nat)
    requires AllDigits(digits)
    ensures AllDigits(Zeros(n) + digits) && AllDigits(digits + Zeros(n))
  {
  }

  /** Left padding keeps the value of the digits. */
  lemma NormalizeLeftValue(number: string)
    ensures DigitsValue(Normalize(number, true)) == DigitsValue(DigitsOnly(number))
  {
    var digits, r := DigitsOnly(number), Normalize(number, true);
    assert r == PadLeft(digits, |r|);
    PadLeftValue(digits, |r|);
  }

  /** Right padding multiplies the value of the digits by ten per zero added. */
  lemma NormalizeRightValue(number: string)
    ensures var r := Normalize(number, false);
      DigitsValue(r) == DigitsValue(DigitsOnly(number)) * Pow(10, |r| - |DigitsOnly(number)|)
  {
    var digits, r := DigitsOnly(number), Normalize(number, false);
    assert r == PadRight(digits, |r|);
    PadRightValue(digits, |r|);
  }

  /** The position of the first dot, or the length when there is none. */
  function FirstDot(s: string): (r: nat)
    ensures r <= |s|
    ensures r < |s| ==> s[r] == '.'
    ensures forall i :: 0 <= i < r ==> s[i] != '.'
  {
    if s == [] || s[0] == '.' then 0 else 1 + FirstDot(s[1..])
  }

  // ---------------------------------------------------------------------
  // Cutting the number into lands

  /** The integer value of each digit chunk, `(int) ltrim(chunk, '0')`. */
  function Values(chunks: seq<string>): (r: seq<nat>)
    requires forall i :: 0 <= i < |chunks| ==> |chunks[i]| <= 3
    ensures |r| == |chunks|
    ensures forall i :: 0 <= i < |chunks| ==> r[i] == DigitsValue(chunks[i]) && r[i] <= 999
  {
    if chunks == [] then []
    else
      ChunkBound(chunks[0]);
      [DigitsValue(chunks[0])] + Values(chunks[1..])
  }

  lemma ChunkBound(c: string)
    requires |c| <= 3
    ensures DigitsValue(c) <= 999
  {
    DigitsValueBound(c);
    assert Pow(10, 3) == 1000;
    assert Pow(10, |c|) <= 1000;
  }

  /** The integer lands of the digits before the dot, units group first. */
  function IntegerLands(part: string): (r: seq<nat>)
    ensures r != []
  {
    var chunks := Reverse(Chunks3(Normalize(part, true)));
    Values(chunks)
  }

  /** The fraction lands of the part from the dot on, the most significant chunk first. */
  function FractionLands(part: string): (r: seq<nat>)
    ensures r != []
  {
    Values(Chunks3(Normalize(part, false)))
  }

  /**
   * `getNumberLands`: the lands of the trimmed input. Only the first dot
   * separates the integer part from the fraction; every other non-digit is
   * dropped. Without a dot there are no fraction lands.
   */
  function NumberLands(number: string): (l: Lands)
    ensures l.ints != [] && l.Bounded()
  {
    var t := Trim(number);
    var p := FirstDot(t);
    Lands(if p < |t| then FractionLands(t[p..]) else [], IntegerLands(t[..p]))
  }

  /** The digits after the first dot of the trimmed input; empty when there is no dot. */
  function FractionDigits(number: string): string {
    var t := Trim(number);
    var p := FirstDot(t);
    if p < |t| then DigitsOnly(t[p..]) else ""
  }

  /** The digits before the first dot of the trimmed input. */
  function IntegerDigits(number: string): string {
    var t := Trim(number);
    DigitsOnly(t[..FirstDot(t)])
  }

  /** `(int)` of every chunk, rewriting the list of lands in place. */
  method ToValues(chunks: seq<string>) returns (values: seq<nat>)
    requires forall i :: 0 <= i < |chunks| ==> |chunks[i]| <= 3
    ensures values == Values(chunks)
  {
    values := [];
    var i := 0;
    while i < |chunks|
      invariant 0 <= i <= |chunks|
      invariant |values| == i
      invariant forall j :: 0 <= j < i ==> values[j] == DigitsValue(chunks[j])
    {
      values := values + [DigitsValue(chunks[i])];
      i := i + 1;
    }
  }

  /** `getNumberLands`. */
  method GetNumberLands(number: string) returns (l: Lands)
    ensures l == NumberLands(number)
  {
    var t := Trim(number);
    var p := FirstDot(t);
    var ints := ToValues(Reverse(Chunks3(Normalize(t[..p], true))));
    var dec: seq<nat> := [];
    if p < |t| {
      dec := ToValues(Chunks3(Normalize(t[p..], false)));
    }
    l := Lands(dec, ints);
  }

  // ---------------------------------------------------------------------
  // Properties of the lands

  /** The value of integer lands read in base one thousand, units group first. */
  function LandsValue(ints: seq<nat>): nat {
    if ints == [] then 0 else ints[0] + 1000 * LandsValue(ints[1..])
  }

  lemma {:induction false} LandsValueSnoc(ints: seq<nat>, v: nat)
    ensures LandsValue(ints + [v]) == LandsValue(ints) + v * Pow(1000, |ints|)
  {
    if ints == [] {
      assert [v][1..] == [];
    } else {
      assert (ints + [v])[1..] == ints[1..] + [v];
      LandsValueSnoc(ints[1..], v);
      assert Pow(1000, |ints|) == 1000 * Pow(1000, |ints| - 1);
    }
  }

  /** Cutting a padded digit string into chunks and reading them back in base one thousand gives its value. */
  lemma {:induction false} ChunksValue(s: string)
    requires |s| % 3 == 0
    ensures LandsValue(Values(Reverse(Chunks3(s)))) == DigitsValue(s)
    decreases |s|
  {
    if |s| <= 3 {
      assert Reverse(Chunks3(s)) == [s];
      assert Values([s]) == [DigitsValue(s)];
      assert LandsValue([DigitsValue(s)]) == DigitsValue(s) + 1000 * LandsValue([]);
    } else {
      var head, tail := s[..3], s[3..];
      assert s == head + tail;
      var tailChunks := Chunks3(tail);
      assert Chunks3(s) == [head] + tailChunks;
      ChunksValue(tail);
      ReverseCons(head, tailChunks);
      var rt := Reverse(tailChunks);
      assert Values(rt + [head]) == Values(rt) + [DigitsValue(head)];
      LandsValueSnoc(Values(rt), DigitsValue(head));
      Chunks3Exact(tail);
      HeadChunkValue(head, tail);
    }
  }

  /** A leading chunk of three digits counts once per thousand of the digits after it. */
  lemma HeadChunkValue(head: string, tail: string)
    requires |tail| % 3 == 0
    ensures DigitsValue(head + tail) == DigitsValue(head) * Pow(1000, |tail| / 3) + DigitsValue(tail)
  {
    PowThousand(|tail| / 3);
    DigitsValueAppend(head, tail);
  }

  /** The integer lands, read in base one thousand, are the value of the digits before the dot. */
  lemma IntegerLandsValue(number: string)
    ensures LandsValue(NumberLands(number).ints) == DigitsValue(IntegerDigits(number))
  {
    var t := Trim(number);
    var part := t[..FirstDot(t)];
    var s := Normalize(part, true);
    NormalizeLeftValue(part);
    if s == "" {
      assert Chunks3(s) == [""];
      assert Reverse([""]) == [""];
      assert IntegerLands(part) == [0];
    } else {
      ChunksValue(s);
    }
  }

  /** With up to three digits there is one fraction land: the digits padded on the right to three. */
  lemma FractionLandsShort(part: string)
    requires |DigitsOnly(part)| <= 3
    ensures FractionLands(part) == [DigitsValue(PadRight(DigitsOnly(part), 3))]
  {
    var f, s := DigitsOnly(part), Normalize(part, false);
    NormalizeShort(part);
    if f == "" {
      assert Chunks3(s) == [""];
      assert PadRight(f, 3) == Zeros(3);
      DigitsValueZeros(3);
    } else {
      assert Chunks3(s) == [s];
    }
  }

  /** Up to three digits are padded on the right to exactly three, and no digits to none. */
  lemma NormalizeShort(part: string)
    requires |DigitsOnly(part)| <= 3
    ensures var f := DigitsOnly(part);
      Normalize(part, false) == if f == "" then "" else PadRight(f, 3)
  {
    var f, s := DigitsOnly(part), Normalize(part, false);
    if f != "" {
      assert |s| == 3;
      var k := 3 - |f|;
      assert s == f + Zeros(k) && PadRight(f, 3) == f + Zeros(k);
    }
  }

  /** The fraction land of an input with at most three fraction digits. */
  lemma FractionLandShort(number: string)
    requires |FractionDigits(number)| <= 3
    ensures var t := Trim(number);
      NumberLands(number).dec
      == if FirstDot(t) < |t| then [DigitsValue(PadRight(FractionDigits(number), 3))] else []
  {
    var t := Trim(number);
    var p := FirstDot(t);
    if p < |t| {
      assert FractionDigits(number) == DigitsOnly(t[p..]);
      assert NumberLands(number).dec == FractionLands(t[p..]);
      FractionLandsShort(t[p..]);
    }
  }

  /**
   * Fraction lands: land `i` (key -(i+1)) holds digits 3i..3i+2 of the
   * fraction padded on the right, so the most significant chunk is key -1.
   */
  lemma FractionLandsChunks(number: string)
    requires FractionDigits(number) != ""
    ensures var t := Trim(number);
      var s := Normalize(t[FirstDot(t)..], false);
      var dec := NumberLands(number).dec;
      && |dec| == |s| / 3
      && forall i :: 0 <= i < |dec| ==> dec[i] == DigitsValue(s[3 * i..3 * i + 3])
  {
    var t := Trim(number);
    var s := Normalize(t[FirstDot(t)..], false);
    Chunks3Exact(s);
  }

  /** There are fraction lands exactly when the trimmed input has a dot, and then at least one, even when it is all zeros. */
  lemma FractionPresent(number: string)
    ensures (exists i :: 0 <= i < |Trim(number)| && Trim(number)[i] == '.') <==> NumberLands(number).dec != []
  {
    var t := Trim(number);
    var p := FirstDot(t);
    if p < |t| {
      assert t[p] == '.';
    }
  }

  /** "1.002" has the cents land -1 => 2 before the units land 0 => 1. */
  lemma LandsOfOnePointOhOhTwo()
    ensures NumberLands("1.002") == Lands([2], [1])
  {
    assert Trim("1.002") == "1.002";
    assert FirstDot("1.002") == 1;
    assert "1.002"[..1] == "1" && "1.002"[1..] == ".002";
    ChunkOneAndTwo();
  }

  lemma ChunkOneAndTwo()
    ensures IntegerLands("1") == [1] && FractionLands(".002") == [2]
  {
    PaddedOneAndTwo();
    assert Chunks3("001") == ["001"] && Chunks3("002") == ["002"];
    ValuesOneAndTwo();
  }

  lemma PaddedOneAndTwo()
    ensures Normalize("1", true) == "001" && Normalize(".002", false) == "002"
  {
    assert DigitsOnly("1") == "1";
    assert DigitsOnly(".002") == "002";
  }

  lemma ValuesOneAndTwo()
    ensures DigitsValue("001") == 1 && DigitsValue("002") == 2
  {
    assert "001"[..2] == "00" && "002"[..2] == "00" && "00"[..1] == "0" && "0"[..0] == "";
  }

  /** ".01" is padded on the right: its cents land holds 10, over a zero units land. */
  lemma LandsOfPointOhOne()
    ensures NumberLands(".01") == Lands([10], [0])
  {
    assert Trim(".01") == ".01";
    assert FirstDot(".01") == 0;
    assert ".01"[..0] == "" && ".01"[0..] == ".01";
    ChunkNothingAndTen();
  }

  lemma ChunkNothingAndTen()
    ensures IntegerLands("") == [0] && FractionLands(".01") == [10]
  {
    PaddedNothingAndTen();
    assert Chunks3("") == [""] && Chunks3("010") == ["010"];
    ValuesNothingAndTen();
  }

  lemma PaddedNothingAndTen()
    ensures Normalize("", true) == "" && Normalize(".01", false) == "010"
  {
    assert DigitsOnly(".01") == "01";
  }

  lemma ValuesNothingAndTen()
    ensures DigitsValue("") == 0 && DigitsValue("010") == 10
  {
    assert "010"[..2] == "01" && "01"[..1] == "0" && "0"[..0] == "";
  }

  // ---------------------------------------------------------------------
  // Spelling

  /** The locale a speller is built with. */
  datatype Locale = EnglishLocale(options: English.Options) | PortugueseLocale

  predicate Usable(locale: Locale) {
    locale.EnglishLocale? ==> English.WellFormed(locale.options)
  }

  /** `locale->simple` of one land. */
  function SimpleOf(locale: Locale, n: nat, key: int): (r: Option<string>)
    requires Usable(locale) && n <= 999
    ensures r.None? <==> n == 0
  {
    match locale
    case EnglishLocale(o) => English.Simple(o, n)
    case PortugueseLocale => Portuguese.Simple(n, key)
  }

  /** The spelled lands among the first `n` lands in array order. */
  function SpelledPrefix(locale: Locale, l: Lands, n: nat): seq<Entry>
    requires Usable(locale) && l.Bounded() && n <= |l.dec| + |l.ints|
  {
    if n == 0 then []
    else
      var k := l.KeyAt(n - 1);
      var prev := SpelledPrefix(locale, l, n - 1);
      match SimpleOf(locale, l.At(k), k)
      case None => prev
      case Some(text) => prev + [Entry(k, text)]
  }

  /** The spelled lands handed to the locale's `format`. */
  function SpelledLands(locale: Locale, l: Lands): seq<Entry>
    requires Usable(locale) && l.Bounded()
  {
    SpelledPrefix(locale, l, |l.dec| + |l.ints|)
  }

  /**
   * `r` is a well-formed spelling of the first `n` lands: in array order,
   * keys of `l` below the `n`-th, each with the locale's words for its land.
   */
  predicate Sound(locale: Locale, l: Lands, n: nat, r: seq<Entry>)
    requires Usable(locale) && l.Bounded()
  {
    && Ascending(r)
    && KeysIn(r, l)
    && (forall i :: 0 <= i < |r| ==> r[i].key < n - |l.dec|)
    && (forall i :: 0 <= i < |r| ==> SimpleOf(locale, l.At(r[i].key), r[i].key) == Some(r[i].text))
  }

  /** Every non-zero land among the first `n` is spelled in `r`. */
  predicate Complete(l: Lands, n: nat, r: seq<Entry>)
    requires n <= |l.dec| + |l.ints|
  {
    forall k :: -|l.dec| <= k < n - |l.dec| && l.At(k) != 0 ==> Spelled(r, k)
  }

  /** Spelling one more land keeps the spelled lands sound and complete. */
  lemma SpelledStep(locale: Locale, l: Lands, n: nat)
    requires Usable(locale) && l.Bounded() && 0 < n <= |l.dec| + |l.ints|
    requires Sound(locale, l, n - 1, SpelledPrefix(locale, l, n - 1))
    requires Complete(l, n - 1, SpelledPrefix(locale, l, n - 1))
    ensures Sound(locale, l, n, SpelledPrefix(locale, l, n))
    ensures Complete(l, n, SpelledPrefix(locale, l, n))
  {
    var k := l.KeyAt(n - 1);
    var prev := SpelledPrefix(locale, l, n - 1);
    match SimpleOf(locale, l.At(k), k)
    case None =>
      assert SpelledPrefix(locale, l, n) == prev;
      assert l.At(k) == 0;
      SkipZero(locale, l, n, prev);
    case Some(text) =>
      assert SpelledPrefix(locale, l, n) == prev + [Entry(k, text)];
      SoundAppend(locale, l, n, prev, text);
      CompleteAppend(l, n, prev, text);
  }

  /** A zero land adds nothing and leaves the spelled lands sound and complete. */
  lemma SkipZero(locale: Locale, l: Lands, n: nat, prev: seq<Entry>)
    requires Usable(locale) && l.Bounded() && 0 < n <= |l.dec| + |l.ints|
    requires l.At(l.KeyAt(n - 1)) == 0
    requires Sound(locale, l, n - 1, prev) && Complete(l, n - 1, prev)
    ensures Sound(locale, l, n, prev) && Complete(l, n, prev)
  {
  }

  /** The words of the next land, appended, keep the spelled lands sound. */
  lemma SoundAppend(locale: Locale, l: Lands, n: nat, prev: seq<Entry>, text: string)
    requires Usable(locale) && l.Bounded() && 0 < n <= |l.dec| + |l.ints|
    requires SimpleOf(locale, l.At(l.KeyAt(n - 1)), l.KeyAt(n - 1)) == Some(text)
    requires Sound(locale, l, n - 1, prev)
    ensures Sound(locale, l, n, prev + [Entry(l.KeyAt(n - 1), text)])
  {
    var r := prev + [Entry(l.KeyAt(n - 1), text)];
    assert forall i :: 0 <= i < |prev| ==> r[i] == prev[i];
  }

  /** The words of the next land, appended, keep the spelled lands complete. */
  lemma CompleteAppend(l: Lands, n: nat, prev: seq<Entry>, text: string)
    requires 0 < n <= |l.dec| + |l.ints|
    requires Complete(l, n - 1, prev)
    ensures Complete(l, n, prev + [Entry(l.KeyAt(n - 1), text)])
  {
    var k := l.KeyAt(n - 1);
    var r := prev + [Entry(k, text)];
    assert r[|prev|].key == k;
    forall k' | -|l.dec| <= k' < n - |l.dec| && l.At(k') != 0
      ensures Spelled(r, k')
    {
      if k' < k {
        var i :| 0 <= i < |prev| && prev[i].key == k';
        assert r[i] == prev[i];
      }
    }
  }

  /**
   * The spelled lands are in array order, each with the locale's words for
   * its land, and a land is spelled exactly when it is not zero.
   */
  lemma {:induction false} SpelledShape(locale: Locale, l: Lands, n: nat)
    requires Usable(locale) && l.Bounded() && n <= |l.dec| + |l.ints|
    ensures Sound(locale, l, n, SpelledPrefix(locale, l, n))
    ensures Complete(l, n, SpelledPrefix(locale, l, n))
  {
    if n > 0 {
      SpelledShape(locale, l, n - 1);
      SpelledStep(locale, l, n);
    }
  }

  /** A spelled land is not zero. */
  lemma SpelledNonZero(locale: Locale, l: Lands, r: seq<Entry>)
    requires Usable(locale) && l.Bounded()
    requires Sound(locale, l, |l.dec| + |l.ints|, r)
    ensures forall k :: l.HasKey(k) && Spelled(r, k) ==> l.At(k) != 0
  {
    forall k | l.HasKey(k) && Spelled(r, k)
      ensures l.At(k) != 0
    {
      var i :| 0 <= i < |r| && r[i].key == k;
      assert SimpleOf(locale, l.At(k), k).Some?;
    }
  }

  /**
   * `spell` keeps exactly the lands with words, which are the non-zero ones,
   * under their own keys and in array order.
   */
  lemma SpelledExactly(locale: Locale, l: Lands)
    requires Usable(locale) && l.Bounded()
    ensures Ascending(SpelledLands(locale, l)) && KeysIn(SpelledLands(locale, l), l)
    ensures forall k :: l.HasKey(k) ==> (Spelled(SpelledLands(locale, l), k) <==> l.At(k) != 0)
  {
    var n := |l.dec| + |l.ints|;
    var r := SpelledPrefix(locale, l, n);
    SpelledShape(locale, l, n);
    SpelledNonZero(locale, l, r);
    assert Complete(l, n, r);
  }

  /** No land is spelled exactly when every land is zero. */
  lemma NothingSpelled(locale: Locale, l: Lands)
    requires Usable(locale) && l.Bounded()
    ensures SpelledLands(locale, l) == [] <==> forall k :: l.HasKey(k) ==> l.At(k) == 0
  {
    var r := SpelledLands(locale, l);
    SpelledShape(locale, l, |l.dec| + |l.ints|);
    if r != [] {
      assert SimpleOf(locale, l.At(r[0].key), r[0].key).Some?;
    }
  }

  /**
   * What the speller accepts: an English table with the basic words, and at
   * most two fraction digits for English (its cents rule reads a single
   * fraction land of whole cents).
   */
  predicate SpellReady(locale: Locale, number: string) {
    match locale
    case EnglishLocale(o) => English.WellFormed(o) && |FractionDigits(number)| <= 2
    case PortugueseLocale => true
  }

  /** A digit string ending in '0' reads as a multiple of ten. */
  lemma EndsInZero(s: string)
    requires s != [] && s[|s| - 1] == '0'
    ensures DigitsValue(s) % 10 == 0
  {
    assert DigitOf(s[|s| - 1]) == 0;
  }

  /** One or two fraction digits padded to three end in a zero: a whole number of cents. */
  lemma WholeCents(f: string)
    requires |f| <= 2
    ensures DigitsValue(PadRight(f, 3)) % 10 == 0
  {
    var padded := PadRight(f, 3);
    assert padded[2] == '0';
    EndsInZero(padded);
  }

  /** With at most two fraction digits there is at most one fraction land, a whole number of cents. */
  lemma CentsLand(number: string)
    requires |FractionDigits(number)| <= 2
    ensures var dec := NumberLands(number).dec;
      |dec| <= 1 && forall i :: 0 <= i < |dec| ==> dec[i] % 10 == 0
  {
    FractionLandShort(number);
    WholeCents(FractionDigits(number));
  }

  /** What the locale's `format` needs of the lands: English reads at most one fraction land, of whole cents. */
  predicate LandsReady(locale: Locale, l: Lands) {
    && Usable(locale)
    && l.Bounded()
    && l.ints != []
    && (locale.EnglishLocale? ==> |l.dec| <= 1 && forall i :: 0 <= i < |l.dec| ==> l.dec[i] % 10 == 0)
  }

  lemma ReadyLands(locale: Locale, number: string)
    requires SpellReady(locale, number)
    ensures LandsReady(locale, NumberLands(number))
  {
    if locale.EnglishLocale? {
      CentsLand(number);
    }
  }

  /** The locale's `format` of the spelled lands of `l`. */
  function Compose(locale: Locale, l: Lands, spelling: Spelling): string
    requires LandsReady(locale, l)
  {
    var s := SpelledLands(locale, l);
    SpelledShape(locale, l, |l.dec| + |l.ints|);
    match locale
    case EnglishLocale(o) => English.FormatSpec(o, s, l, spelling)
    case PortugueseLocale => Portuguese.FormatSpec(s, l)
  }

  /** `spell`: the locale's `format` of the spelled lands of the number. */
  function SpellSpec(locale: Locale, number: string, spelling: Spelling): string
    requires SpellReady(locale, number)
  {
    ReadyLands(locale, number);
    Compose(locale, NumberLands(number), spelling)
  }

  /** Spell every land in array order and keep those with words. */
  method SpellEach(locale: Locale, l: Lands) returns (spelled: seq<Entry>)
    requires Usable(locale) && l.Bounded()
    ensures spelled == SpelledLands(locale, l)
  {
    spelled := [];
    var i := 0;
    while i < |l.dec| + |l.ints|
      invariant 0 <= i <= |l.dec| + |l.ints|
      invariant spelled == SpelledPrefix(locale, l, i)
    {
      var key := l.KeyAt(i);
      var text := SimpleOf(locale, l.At(key), key);
      ghost var next := SpelledPrefix(locale, l, i + 1);
      if text.Some? {
        assert next == spelled + [Entry(key, text.value)];
        spelled := spelled + [Entry(key, text.value)];
      } else {
        assert next == spelled;
      }
      i := i + 1;
    }
  }

  /** Spell the lands, then let the locale compose them. */
  method SpellLands(locale: Locale, l: Lands, spelling: Spelling) returns (result: string)
    requires LandsReady(locale, l)
    ensures result == Compose(locale, l, spelling)
  {
    var spelled := SpellEach(locale, l);
    SpelledShape(locale, l, |l.dec| + |l.ints|);
    match locale
    case EnglishLocale(o) =>
      result := English.Format(o, spelled, l, spelling);
    case PortugueseLocale =>
      result := Portuguese.Format(spelled, l);
  }

  /** `spell`: cut the number into lands, then spell and compose them. */
  method Spell(locale: Locale, number: string, spelling: Spelling) returns (result: string)
    requires SpellReady(locale, number)
    ensures result == SpellSpec(locale, number, spelling)
  {
    var l := GetNumberLands(number);
    ReadyLands(locale, number);
    result := SpellLands(locale, l, spelling);
  }

  /** A number whose lands are all zero spells as the locale's zero (with the currency word, in English). */
  lemma SpellZero(locale: Locale, number: string, spelling: Spelling)
    requires SpellReady(locale, number)
    requires forall k :: NumberLands(number).HasKey(k) ==> NumberLands(number).At(k) == 0
    ensures locale.EnglishLocale? ==>
      SpellSpec(locale, number, spelling) == English.Wrap(locale.options, locale.options.zeroSpell, 0, [], Integer, spelling)
    ensures locale.PortugueseLocale? ==> SpellSpec(locale, number, spelling) == "zero"
  {
    NothingSpelled(locale, NumberLands(number));
  }
}

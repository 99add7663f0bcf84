/**
 * The currency-name table (Currency, DollarCurrency, RealCurrency): locale
 * tags normalised into least-to-most specific forms, a table from normalised
 * tag to singular/plural rule with aliases and a default locale, and the
 * ordered fallback search that picks the rule for a requested tag.
 */
module Currencies {
  import opened Php

  /** Which part of an amount a currency word is for: whole units or cents. */
  datatype Side = Integer | Decimal

  /** The errors the table raises instead of returning. */
  datatype Error = LocaleUndefined | LocaleCallableUndefined

  datatype Outcome = Pass | Fail(error: Error)

  datatype Result<T> = Ok(value: T) | Err(error: Error)

  /** The naming rule `addLocaleCommon` registers: singular up to one, plural above. */
  datatype Rule = Common(integerSingular: string, integerPlural: string, decimalSingular: string, decimalPlural: string)
  {
    function Singular(side: Side): string {
      if side == Integer then integerSingular else decimalSingular
    }

    function Plural(side: Side): string {
      if side == Integer then integerPlural else decimalPlural
    }

    /** The currency word for `value` units of `side`. */
    function Name(side: Side, value: int): (r: string)
      ensures value <= 1 ==> r == Singular(side)
      ensures 1 < value ==> r == Plural(side)
    {
      if value <= 1 then Singular(side) else Plural(side)
    }
  }

  // ---------------------------------------------------------------------
  // Locale tags

  /** The index of the first character outside [a-zA-Z0-9], if any. */
  function FirstSeparator(s: string): (r: Option<nat>)
    ensures r.Some? ==> r.value < |s| && !IsAlnum(s[r.value])
    ensures r.Some? ==> forall j :: 0 <= j < r.value ==> IsAlnum(s[j])
    ensures r.None? ==> forall j :: 0 <= j < |s| ==> IsAlnum(s[j])
  {
    if s == [] then None
    else if !IsAlnum(s[0]) then Some(0)
    else match FirstSeparator(s[1..])
      case None => None
      case Some(i) => Some(i + 1)
  }

  /** The end of the maximal run of separator characters that starts at `i`. */
  function RunEnd(s: string, i: nat): (r: nat)
    requires i <= |s|
    ensures i <= r <= |s|
    ensures forall j :: i <= j < r ==> !IsAlnum(s[j])
    ensures r == |s| || IsAlnum(s[r])
    decreases |s| - i
  {
    if i == |s| || IsAlnum(s[i]) then i else RunEnd(s, i + 1)
  }

  predicate AllAlnum(t: string) {
    forall j :: 0 <= j < |t| ==> IsAlnum(t[j])
  }

  /** A non-empty run of characters outside [a-zA-Z0-9]. */
  predicate IsSeparatorRun(t: string) {
    t != [] && forall j :: 0 <= j < |t| ==> !IsAlnum(t[j])
  }

  /** What follows a maximal separator run: nothing, or an alphanumeric character. */
  predicate StartsPiece(t: string) {
    t == [] || IsAlnum(t[0])
  }

  /**
   * `preg_split('/[^a-z0-9]+/i', s, 3)`: cut at maximal runs of separators,
   * at most three pieces, the third one holding the rest of the string.
   */
  function Split3(s: string): (r: seq<string>)
    ensures 1 <= |r| <= 3
  {
    match FirstSeparator(s)
    case None => [s]
    case Some(i) =>
      var rest := s[RunEnd(s, i)..];
      match FirstSeparator(rest)
      case None => [s[..i], rest]
      case Some(j) => [s[..i], rest[..j], rest[RunEnd(rest, j)..]]
  }

  /** `s` is `a`, a maximal separator run, then `b`. */
  predicate Cut(s: string, a: string, b: string) {
    && |a| + |b| < |s|
    && s[..|a|] == a
    && s[|s| - |b|..] == b
    && IsSeparatorRun(s[|a|..|s| - |b|])
    && StartsPiece(b)
  }

  /**
   * The pieces of `Split3`: the first two hold only alphanumerics, each cut
   * is a maximal separator run, and a third piece is the rest of the string
   * after the second cut, whatever it holds.
   */
  lemma Split3Pieces(s: string)
    ensures var r := Split3(s);
      && (|r| == 1 <==> AllAlnum(s))
      && (|r| == 1 ==> r[0] == s)
      && (|r| >= 2 ==> AllAlnum(r[0]) && AllAlnum(r[1]))
      && (|r| == 2 ==> Cut(s, r[0], r[1]))
      && (|r| == 3 ==>
            && r[1] != [] && |r[0]| < |s|
            && var rest := s[RunEnd(s, |r[0]|)..]; Cut(s, r[0], rest) && Cut(rest, r[1], r[2]))
  {
    match FirstSeparator(s)
    case None =>
    case Some(i) =>
      var rest := s[RunEnd(s, i)..];
      CutAt(s, i);
      match FirstSeparator(rest)
      case None =>
      case Some(j) =>
        CutAt(rest, j);
  }

  /** The first separator and the run it starts cut `s` into the alphanumeric head and the rest. */
  lemma CutAt(s: string, i: nat)
    requires FirstSeparator(s) == Some(i)
    ensures AllAlnum(s[..i]) && Cut(s, s[..i], s[RunEnd(s, i)..])
  {
    var e := RunEnd(s, i);
    assert s[i..|s| - |s[e..]|] == s[i..e];
  }

  /** One cut: a piece, a maximal separator run, then whatever follows it. */
  lemma CutFirst(a: string, sep: string, rest: string)
    requires AllAlnum(a) && IsSeparatorRun(sep) && StartsPiece(rest)
    ensures var s := a + sep + rest;
      FirstSeparator(s) == Some(|a|) && RunEnd(s, |a|) == |a| + |sep| && s[..|a|] == a && s[|a| + |sep|..] == rest
  {
    var s := a + sep + rest;
    var e := |a| + |sep|;
    assert s[..|a|] == a;
    assert s[|a|..e] == sep;
    assert s[e..] == rest;
    CutHead(s, |a|);
    CutRun(s, |a|, e);
  }

  lemma CutHead(s: string, i: nat)
    requires i < |s| && AllAlnum(s[..i]) && !IsAlnum(s[i])
    ensures FirstSeparator(s) == Some(i)
  {
    assert forall j :: 0 <= j < i ==> s[..i][j] == s[j];
    FirstSeparatorIs(s, i);
  }

  lemma CutRun(s: string, i: nat, e: nat)
    requires i < e <= |s| && IsSeparatorRun(s[i..e]) && StartsPiece(s[e..])
    ensures RunEnd(s, i) == e
  {
    assert forall j :: i <= j < e ==> s[i..e][j - i] == s[j];
    assert e < |s| ==> s[e..][0] == s[e];
    RunEndIs(s, i, e);
  }

  /**
   * The converse of `Split3Pieces`: a string made of up to three pieces
   * between maximal separator runs splits back into exactly those pieces.
   */
  lemma SplitTwo(a: string, sep: string, b: string)
    requires AllAlnum(a) && IsSeparatorRun(sep) && AllAlnum(b)
    ensures Split3(a + sep + b) == [a, b]
  {
    CutFirst(a, sep, b);
  }

  lemma SplitThree(a: string, sep1: string, b: string, sep2: string, c: string)
    requires AllAlnum(a) && IsSeparatorRun(sep1) && AllAlnum(b) && b != []
    requires IsSeparatorRun(sep2) && StartsPiece(c)
    ensures Split3(a + sep1 + b + sep2 + c) == [a, b, c]
  {
    var rest := b + sep2 + c;
    var s := a + sep1 + b + sep2 + c;
    assert s == a + sep1 + rest;
    CutFirst(a, sep1, rest);
    CutFirst(b, sep2, c);
    assert Split3(s) == [s[..|a|], rest[..|b|], rest[|b| + |sep2|..]];
  }

  /** The first separator is at `i` when `s[i]` is one and everything before it is alphanumeric. */
  lemma {:induction false} FirstSeparatorIs(s: string, i: nat)
    requires i < |s| && !IsAlnum(s[i]) && forall j :: 0 <= j < i ==> IsAlnum(s[j])
    ensures FirstSeparator(s) == Some(i)
  {
    if i > 0 {
      assert forall j :: 0 <= j < i - 1 ==> s[1..][j] == s[j + 1];
      FirstSeparatorIs(s[1..], i - 1);
    }
  }

  /** The run that starts at `i` ends at `e` when `s[i..e]` are separators and `s[e]` is not. */
  lemma {:induction false} RunEndIs(s: string, i: nat, e: nat)
    requires i <= e <= |s| && (forall j :: i <= j < e ==> !IsAlnum(s[j])) && (e == |s| || IsAlnum(s[e]))
    ensures RunEnd(s, i) == e
    decreases e - i
  {
    if i < e {
      RunEndIs(s, i + 1, e);
    }
  }

  /** How many pieces `array_filter` keeps (the truthy ones). */
  function KeptCount(parts: seq<string>): (n: nat)
    ensures n <= |parts|
  {
    if parts == [] then 0 else (if Truthy(parts[0]) then 1 else 0) + KeptCount(parts[1..])
  }

  /**
   * The piece `array_filter` leaves under key `i`. A dropped piece leaves a
   * hole and reads back as null, which the string functions treat as "".
   */
  function KeptAt(parts: seq<string>, i: nat): string {
    if i < |parts| && Truthy(parts[i]) then parts[i] else ""
  }

  /**
   * `getLocaleSplitted`: the tag from least to most specific, for example
   * "pt.BR" gives ["pt", "pt-BR"].
   */
  function LocaleSplitted(locale: string): (r: seq<string>)
    ensures |r| <= 3
    ensures |r| == 0 <==> KeptCount(Split3(Trim(locale))) == 0
    ensures forall i :: 0 < i < |r| ==> r[i - 1] < r[i]
  {
    var parts := Split3(Trim(locale));
    var n := KeptCount(parts);
    if n == 0 then []
    else
      var first := Lower(KeptAt(parts, 0));
      if n == 1 then [first]
      else
        var second := first + "-" + Upper(KeptAt(parts, 1));
        DashExtends(first, Upper(KeptAt(parts, 1)));
        if n == 3 then
          var third := second + "-" + Trim(KeptAt(parts, 2));
          DashExtends(second, Trim(KeptAt(parts, 2)));
          [first, second, third]
        else [first, second]
  }

  /** A form is a proper prefix of the form that extends it with "-" and a piece. */
  lemma DashExtends(form: string, piece: string)
    ensures form < form + "-" + piece
  {
    assert (form + "-" + piece)[..|form|] == form;
  }

  /** A string that starts and ends with an alphanumeric character is left alone by `trim`. */
  lemma TrimAlnumEnds(t: string)
    requires t != [] && IsAlnum(t[0]) && IsAlnum(t[|t| - 1])
    ensures Trim(t) == t
  {
  }

  /** A tag of one piece gives that piece in lower case. */
  lemma TagOfOne(locale: string, a: string)
    requires Trim(locale) == a && AllAlnum(a) && Truthy(a)
    ensures LocaleSplitted(locale) == [Lower(a)]
  {
  }

  /**
   * A tag of two pieces gives the first piece in lower case, then that and
   * the second piece in upper case joined by "-".
   */
  lemma TagOfTwo(locale: string, a: string, sep: string, b: string)
    requires Trim(locale) == a + sep + b
    requires AllAlnum(a) && IsSeparatorRun(sep) && AllAlnum(b) && Truthy(a) && Truthy(b)
    ensures LocaleSplitted(locale) == [Lower(a), Lower(a) + "-" + Upper(b)]
  {
    SplitTwo(a, sep, b);
    assert KeptCount([a, b]) == 2 by {
      assert [a, b][1..] == [b];
    }
  }

  /**
   * A tag of three pieces adds a third form: the second one, "-" and the
   * rest of the tag as written, trimmed.
   */
  lemma TagOfThree(locale: string, a: string, sep1: string, b: string, sep2: string, c: string)
    requires Trim(locale) == a + sep1 + b + sep2 + c
    requires AllAlnum(a) && IsSeparatorRun(sep1) && AllAlnum(b) && IsSeparatorRun(sep2)
    requires Truthy(a) && Truthy(b) && Truthy(c) && StartsPiece(c)
    ensures var second := Lower(a) + "-" + Upper(b);
      LocaleSplitted(locale) == [Lower(a), second, second + "-" + Trim(c)]
  {
    var parts := [a, b, c];
    SplitThree(a, sep1, b, sep2, c);
    assert Split3(Trim(locale)) == parts;
    assert KeptCount(parts) == 3 by {
      assert [c][1..] == [] && KeptCount([c]) == 1;
      assert [b, c][1..] == [c] && KeptCount([b, c]) == 2;
      assert parts[1..] == [b, c];
    }
    assert KeptAt(parts, 0) == a && KeptAt(parts, 1) == b && KeptAt(parts, 2) == c;
  }

  lemma PieceCases()
    ensures Lower("pt") == "pt" && Upper("BR") == "BR" && Upper("RJ") == "RJ"
    ensures AllAlnum("pt") && AllAlnum("BR") && AllAlnum("rj") && AllAlnum("RJ")
  {
    assert Lower("t") == "t";
    assert Upper("R") == "R" && Upper("J") == "J";
  }

  lemma TrimOfSpacedUnderscore()
    ensures Trim(" pt_BR ") == "pt" + "_" + "BR"
  {
    assert TrimLeft(" pt_BR ") == "pt_BR ";
    assert TrimRight("pt_BR ") == "pt_BR";
  }

  /** " pt_BR " gives ["pt", "pt-BR"]: the spaces are trimmed and the underscore is a separator. */
  lemma SplitOfSpacedUnderscore()
    ensures LocaleSplitted(" pt_BR ") == ["pt", "pt-BR"]
  {
    TrimOfSpacedUnderscore();
    PieceCases();
    assert IsSeparatorRun("_");
    TagOfTwo(" pt_BR ", "pt", "_", "BR");
    RegionForms();
  }

  lemma TrimOfRegion()
    ensures Trim("pt-BR- rj ") == "pt" + "-" + "BR" + "- " + "rj"
  {
    assert TrimLeft("pt-BR- rj ") == "pt-BR- rj ";
    assert TrimRight("pt-BR- rj ") == "pt-BR- rj";
  }

  lemma SeparatorRuns()
    ensures IsSeparatorRun("-") && IsSeparatorRun("- ") && IsSeparatorRun(".") && IsSeparatorRun(" + ")
  {
  }

  /** "pt-BR- rj " gives ["pt", "pt-BR", "pt-BR-rj"]: "- " is one separator run. */
  lemma SplitOfRegion()
    ensures LocaleSplitted("pt-BR- rj ") == ["pt", "pt-BR", "pt-BR-rj"]
  {
    TrimOfRegion();
    PieceCases();
    SeparatorRuns();
    TrimAlnumEnds("rj");
    TagOfThree("pt-BR- rj ", "pt", "-", "BR", "- ", "rj");
    RegionForms();
  }

  lemma RegionForms()
    ensures "pt" + "-" + "BR" == "pt-BR"
    ensures "pt-BR" + "-" + "rj" == "pt-BR-rj"
    ensures "pt-BR" + "-" + "RJ" == "pt-BR-RJ"
  {
  }

  lemma TrimOfPlusRegion()
    ensures Trim("pt.BR + RJ") == "pt" + "." + "BR" + " + " + "RJ"
  {
    TrimAlnumEnds("pt.BR + RJ");
  }

  lemma SplitOfPlusRegion()
    ensures LocaleSplitted("pt.BR + RJ") == ["pt", "pt-BR", "pt-BR-RJ"]
  {
    TrimOfPlusRegion();
    PieceCases();
    SeparatorRuns();
    TrimAlnumEnds("RJ");
    TagOfThree("pt.BR + RJ", "pt", ".", "BR", " + ", "RJ");
    RegionForms();
  }

  lemma SplitOfDot()
    ensures LocaleSplitted("pt.BR") == ["pt", "pt-BR"]
  {
    PieceCases();
    SeparatorRuns();
    TrimAlnumEnds("pt.BR");
    assert "pt.BR" == "pt" + "." + "BR";
    TagOfTwo("pt.BR", "pt", ".", "BR");
    RegionForms();
  }

  /** The normal form is the last form when that one is truthy. */
  lemma NormalizedIsLast(locale: string, forms: seq<string>)
    requires LocaleSplitted(locale) == forms && forms != [] && Truthy(forms[|forms| - 1])
    ensures LocaleNormalized(locale) == Some(forms[|forms| - 1])
  {
  }

  /** "pt.BR + RJ" normalises to "pt-BR-RJ". */
  lemma NormalizedPlusRegion()
    ensures LocaleNormalized("pt.BR + RJ") == Some("pt-BR-RJ")
  {
    SplitOfPlusRegion();
    NormalizedIsLast("pt.BR + RJ", ["pt", "pt-BR", "pt-BR-RJ"]);
  }

  /** "pt.BR" normalises to "pt-BR". */
  lemma NormalizedDot()
    ensures LocaleNormalized("pt.BR") == Some("pt-BR")
  {
    SplitOfDot();
    NormalizedIsLast("pt.BR", ["pt", "pt-BR"]);
  }

  /** An empty tag (PHP's null) has no forms and normalises to null. */
  lemma NormalizedEmpty()
    ensures LocaleNormalized("") == None
  {
    EmptyTag();
  }

  lemma EmptyTag()
    ensures LocaleSplitted("") == []
  {
    assert Trim("") == "";
    assert Split3("") == [""];
    assert KeptCount([""]) == 0;
  }

  /** `getLocaleNormalized`: the most specific form of the tag, or null. */
  function LocaleNormalized(locale: string): (r: Option<string>)
    ensures r.Some? <==> LocaleSplitted(locale) != [] && Truthy(Last(LocaleSplitted(locale)))
    ensures r.Some? ==> r.value == Last(LocaleSplitted(locale))
  {
    var all := LocaleSplitted(locale);
    if all != [] && Truthy(Last(all)) then Some(Last(all)) else None
  }

  function Last(s: seq<string>): string
    requires s != []
  {
    s[|s| - 1]
  }

  predicate Distinct(s: seq<string>) {
    forall i, j :: 0 <= i < j < |s| ==> s[i] != s[j]
  }

  /** Every split is free of repetitions: each form is strictly longer than the one before. */
  lemma SplittedDistinct(locale: string)
    ensures Distinct(LocaleSplitted(locale))
  {
    var r := LocaleSplitted(locale);
    forall i, j | 0 <= i < j < |r|
      ensures r[i] != r[j]
    {
      if j == i + 1 {
        assert r[i] < r[j];
      } else {
        assert r[i] < r[i + 1] && r[i + 1] < r[j];
      }
    }
  }

  // ---------------------------------------------------------------------
  // Fallback order

  /** The position of the first occurrence of `x` in `s`. */
  function FirstIndex(s: seq<string>, x: string): (i: nat)
    requires x in s
    ensures i < |s| && s[i] == x && x !in s[..i]
  {
    if s[0] == x then 0
    else
      var i := FirstIndex(s[1..], x);
      assert s[..i + 1] == [s[0]] + s[1..][..i];
      i + 1
  }

  /** Being at `k` with no earlier occurrence pins the first occurrence down. */
  lemma {:induction false} FirstIndexIs(s: seq<string>, x: string, k: nat)
    requires k < |s| && s[k] == x && x !in s[..k]
    ensures FirstIndex(s, x) == k
    decreases k
  {
    if k > 0 {
      assert s[..k][0] == s[0];
      assert s[1..][..k - 1] == s[..k][1..];
      FirstIndexIs(s[1..], x, k - 1);
    }
  }

  /** Appending to a list moves no first occurrence of what it already holds. */
  lemma FirstIndexAppend(s: seq<string>, t: seq<string>, x: string)
    requires x in s
    ensures x in s + t && FirstIndex(s + t, x) == FirstIndex(s, x)
  {
    var i := FirstIndex(s, x);
    assert (s + t)[..i] == s[..i];
    FirstIndexIs(s + t, x, i);
  }

  /** A new last element first occurs at the end. */
  lemma FirstIndexLast(s: seq<string>, x: string)
    requires x !in s
    ensures FirstIndex(s + [x], x) == |s|
  {
    assert (s + [x])[..|s|] == s;
    FirstIndexIs(s + [x], x, |s|);
  }

  /**
   * `array_unique` of a list: the first occurrence of each tag, in the
   * order of those first occurrences (`UniqueOrder`).
   */
  function Unique(s: seq<string>): (r: seq<string>)
    ensures Distinct(r)
    ensures forall x :: x in r <==> x in s
  {
    if s == [] then []
    else
      var p, z := s[..|s| - 1], s[|s| - 1];
      var d := Unique(p);
      assert s == p + [z];
      if z in d then d else d + [z]
  }

  /** `Unique` keeps the tags in the order in which they first occur. */
  lemma {:induction false} UniqueOrder(s: seq<string>)
    ensures forall i, j :: 0 <= i < j < |Unique(s)| ==> FirstIndex(s, Unique(s)[i]) < FirstIndex(s, Unique(s)[j])
  {
    if s != [] {
      var p, z := s[..|s| - 1], s[|s| - 1];
      assert s == p + [z];
      UniqueOrder(p);
      var d := Unique(p);
      assert forall i, j :: 0 <= i < j < |d| ==> FirstIndex(p, d[i]) < FirstIndex(p, d[j]);
      UniqueStep(p, z, d);
    }
  }

  /** The step of `Unique`: the first occurrences in `p` stay first in `p + [z]`, and a new `z` comes last. */
  lemma UniqueStep(p: seq<string>, z: string, d: seq<string>)
    requires Distinct(d)
    requires forall x :: x in d <==> x in p
    requires forall i, j :: 0 <= i < j < |d| ==> FirstIndex(p, d[i]) < FirstIndex(p, d[j])
    ensures var r := if z in d then d else d + [z];
      && Distinct(r)
      && (forall x :: x in r <==> x in p + [z])
      && forall i, j :: 0 <= i < j < |r| ==> FirstIndex(p + [z], r[i]) < FirstIndex(p + [z], r[j])
  {
    var r := if z in d then d else d + [z];
    assert forall x :: x in p + [z] <==> x in p || x == z;
    forall i | 0 <= i < |d|
      ensures FirstIndex(p + [z], d[i]) == FirstIndex(p, d[i]) < |p|
    {
      FirstIndexAppend(p, [z], d[i]);
    }
    if z !in d {
      FirstIndexLast(p, z);
    }
    forall i, j | 0 <= i < j < |r|
      ensures FirstIndex(p + [z], r[i]) < FirstIndex(p + [z], r[j])
    {
      if j == |d| {
        assert r[j] == z;
      }
    }
  }

  /** A list that already has no repetitions comes back unchanged, also as the head of a longer one. */
  lemma {:induction false} UniqueKeepsPrefix(a: seq<string>, b: seq<string>)
    requires Distinct(a)
    ensures |Unique(a + b)| >= |a| && Unique(a + b)[..|a|] == a
    decreases |b|
  {
    if b == [] {
      assert a + b == a;
      UniqueDistinct(a);
    } else {
      var b' := b[..|b| - 1];
      assert (a + b)[..|a + b| - 1] == a + b';
      UniqueKeepsPrefix(a, b');
    }
  }

  lemma {:induction false} UniqueDistinct(a: seq<string>)
    requires Distinct(a)
    ensures Unique(a) == a
  {
    if a != [] {
      UniqueDistinct(a[..|a| - 1]);
      assert a[|a| - 1] !in a[..|a| - 1];
    }
  }

  /** The splits of the alternative tags, last alternative first. */
  function AlternativeSplits(alternatives: seq<string>): seq<string> {
    if alternatives == [] then []
    else LocaleSplitted(alternatives[|alternatives| - 1]) + AlternativeSplits(alternatives[..|alternatives| - 1])
  }

  /**
   * `getLocalesOrdered`: the reverse of the de-duplicated list of the
   * default forms, the alternatives' forms (last alternative first) and the
   * main tag's forms; so the most specific main form comes first and the
   * default forms come last.
   */
  function LocalesOrdered(defaults: seq<string>, main: string, alternatives: seq<string>): seq<string> {
    Reverse(Unique(defaults + AlternativeSplits(alternatives) + LocaleSplitted(main)))
  }

  /** Reversing keeps a list free of repetitions and keeps its members. */
  lemma ReverseDistinct(u: seq<string>)
    requires Distinct(u)
    ensures Distinct(Reverse(u))
    ensures forall x :: x in Reverse(u) <==> x in u
  {
    var r := Reverse(u);
    forall i, j | 0 <= i < j < |r|
      ensures r[i] != r[j]
    {
      assert r[i] == u[|u| - 1 - i] && r[j] == u[|u| - 1 - j];
    }
    forall x
      ensures x in r <==> x in u
    {
      if x in r {
        var i :| 0 <= i < |r| && r[i] == x;
        assert u[|u| - 1 - i] == x;
      }
      if x in u {
        var i :| 0 <= i < |u| && u[i] == x;
        assert r[|u| - 1 - i] == x;
      }
    }
  }

  /** The head of a list ends its reverse, reversed. */
  lemma ReverseOfPrefix(u: seq<string>, a: seq<string>)
    requires |a| <= |u| && u[..|a|] == a
    ensures Reverse(u)[|u| - |a|..] == Reverse(a)
  {
    var r := Reverse(u);
    forall k | 0 <= k < |a|
      ensures r[|u| - |a|..][k] == Reverse(a)[k]
    {
      assert r[|u| - |a| + k] == u[|a| - 1 - k];
      assert u[..|a|][|a| - 1 - k] == a[|a| - 1 - k];
    }
  }

  /** The ordered tags hold each candidate form once, and the defaults close the list, most specific first. */
  lemma LocalesOrderedMembers(defaults: seq<string>, main: string, alternatives: seq<string>)
    requires Distinct(defaults)
    ensures var r := LocalesOrdered(defaults, main, alternatives);
      && Distinct(r)
      && (forall x :: x in r <==> x in defaults || x in AlternativeSplits(alternatives) || x in LocaleSplitted(main))
      && |r| >= |defaults|
      && r[|r| - |defaults|..] == Reverse(defaults)
  {
    var a, m := AlternativeSplits(alternatives), LocaleSplitted(main);
    var all := defaults + a + m;
    assert all == defaults + (a + m);
    UniqueKeepsPrefix(defaults, a + m);
    var u := Unique(all);
    ReverseDistinct(u);
    ReverseOfPrefix(u, defaults);
  }

  /**
   * Besides, the main tag's own forms come first, most specific first, then
   * the alternatives' forms, then the defaults.
   */
  lemma LocalesOrderedShape(defaults: seq<string>, main: string, alternatives: seq<string>)
    requires Distinct(defaults)
    ensures var r := LocalesOrdered(defaults, main, alternatives);
      && Distinct(r)
      && (forall x :: x in r <==> x in defaults || x in AlternativeSplits(alternatives) || x in LocaleSplitted(main))
      && |r| >= |defaults|
      && r[|r| - |defaults|..] == Reverse(defaults)
      && (forall i, j :: 0 <= i < j < |r| ==>
            Tier(defaults, AlternativeSplits(alternatives), r[i]) <= Tier(defaults, AlternativeSplits(alternatives), r[j]))
      && (forall i, j :: 0 <= i < j < |r| && Tier(defaults, AlternativeSplits(alternatives), r[j]) == 0 ==> r[j] < r[i])
  {
    LocalesOrderedMembers(defaults, main, alternatives);
    LocalesOrderedPriority(defaults, main, alternatives);
  }

  /**
   * The priority of a candidate form in the fallback order: 0 for a form
   * only the main tag has, 1 for an alternative's form that is not a
   * default, 2 for a default form.
   */
  function Tier(defaults: seq<string>, alternativeForms: seq<string>, x: string): (t: nat)
    ensures t <= 2
  {
    if x in defaults then 2 else if x in alternativeForms then 1 else 0
  }

  /**
   * The main tag's own forms come first, most specific first; then the
   * alternatives' forms; the default forms close the list.
   */
  lemma LocalesOrderedPriority(defaults: seq<string>, main: string, alternatives: seq<string>)
    ensures var r, a := LocalesOrdered(defaults, main, alternatives), AlternativeSplits(alternatives);
      && (forall i, j :: 0 <= i < j < |r| ==> Tier(defaults, a, r[i]) <= Tier(defaults, a, r[j]))
      && (forall i, j :: 0 <= i < j < |r| && Tier(defaults, a, r[j]) == 0 ==> r[j] < r[i])
  {
    var a, m := AlternativeSplits(alternatives), LocaleSplitted(main);
    var u := Unique(defaults + a + m);
    SplittedChain(main);
    forall p, q | 0 <= p < q < |u|
      ensures Tier(defaults, a, u[q]) <= Tier(defaults, a, u[p])
      ensures Tier(defaults, a, u[p]) == 0 ==> u[p] < u[q]
    {
      PriorityAt(defaults, a, m, p, q);
    }
    ReversedPriority(defaults, a, u);
  }

  /** Reversing a list ordered by falling priority orders it by rising priority. */
  lemma ReversedPriority(d: seq<string>, a: seq<string>, u: seq<string>)
    requires forall p, q :: 0 <= p < q < |u| ==> Tier(d, a, u[q]) <= Tier(d, a, u[p])
    requires forall p, q :: 0 <= p < q < |u| && Tier(d, a, u[p]) == 0 ==> u[p] < u[q]
    ensures var r := Reverse(u);
      && (forall i, j :: 0 <= i < j < |r| ==> Tier(d, a, r[i]) <= Tier(d, a, r[j]))
      && (forall i, j :: 0 <= i < j < |r| && Tier(d, a, r[j]) == 0 ==> r[j] < r[i])
  {
    var r := Reverse(u);
    forall i, j | 0 <= i < j < |r|
      ensures Tier(d, a, r[i]) <= Tier(d, a, r[j])
      ensures Tier(d, a, r[j]) == 0 ==> r[j] < r[i]
    {
      assert r[i] == u[|u| - 1 - i] && r[j] == u[|u| - 1 - j];
    }
  }

  /** Of two forms of `array_unique`'s result, the earlier one has no lower priority. */
  lemma PriorityAt(d: seq<string>, a: seq<string>, m: seq<string>, p: nat, q: nat)
    requires forall p, q :: 0 <= p < q < |m| ==> m[p] < m[q]
    requires p < q < |Unique(d + a + m)|
    ensures var u := Unique(d + a + m);
      Tier(d, a, u[q]) <= Tier(d, a, u[p]) && (Tier(d, a, u[p]) == 0 ==> u[p] < u[q])
  {
    var u := Unique(d + a + m);
    UniqueOrder(d + a + m);
    assert u[p] in u && u[q] in u;
    TierOrder(d, a, m, u[q], u[p]);
  }

  /** A form that first occurs later in the candidates has no lower priority, and among the main forms is more specific. */
  lemma TierOrder(d: seq<string>, a: seq<string>, m: seq<string>, x: string, y: string)
    requires x in d + a + m && y in d + a + m
    requires FirstIndex(d + a + m, y) < FirstIndex(d + a + m, x)
    requires forall p, q :: 0 <= p < q < |m| ==> m[p] < m[q]
    ensures Tier(d, a, x) <= Tier(d, a, y)
    ensures Tier(d, a, y) == 0 ==> y < x
  {
    FirstIndexTier(d, a, m, x);
    FirstIndexTier(d, a, m, y);
    if Tier(d, a, y) == 0 {
      assert m[FirstIndex(m, y)] == y && m[FirstIndex(m, x)] == x;
    }
  }

  /** No first occurrence lies past an occurrence. */
  lemma {:induction false} FirstIndexAtMost(s: seq<string>, x: string, p: nat)
    requires p < |s| && s[p] == x
    ensures FirstIndex(s, x) <= p
  {
    if s[0] != x {
      FirstIndexAtMost(s[1..], x, p - 1);
    }
  }

  /** Where a form first occurs in the concatenated candidates tells which part it first comes from. */
  lemma FirstIndexTier(d: seq<string>, a: seq<string>, m: seq<string>, x: string)
    requires x in d + a + m
    ensures x in d <==> FirstIndex(d + a + m, x) < |d|
    ensures x in d || x in a <==> FirstIndex(d + a + m, x) < |d| + |a|
    ensures x !in d && x !in a ==> x in m && FirstIndex(d + a + m, x) == |d| + |a| + FirstIndex(m, x)
  {
    var all := d + a + m;
    var k := FirstIndex(all, x);
    if x in d {
      var p := FirstIndex(d, x);
      assert all[p] == x;
      FirstIndexAtMost(all, x, p);
    }
    if x in a {
      var p := |d| + FirstIndex(a, x);
      assert all[p] == x;
      FirstIndexAtMost(all, x, p);
    }
    if k < |d| {
      assert all[k] == d[k];
    } else if k < |d| + |a| {
      assert all[k] == a[k - |d|];
    }
    if x !in d && x !in a {
      assert x in m;
      var p := FirstIndex(m, x);
      assert all[..|d| + |a| + p] == d + a + m[..p];
      FirstIndexIs(all, x, |d| + |a| + p);
    }
  }

  /** Every form of a split is a proper prefix of each later one. */
  lemma SplittedChain(locale: string)
    ensures var r := LocaleSplitted(locale); forall p, q :: 0 <= p < q < |r| ==> r[p] < r[q]
  {
    var r := LocaleSplitted(locale);
    forall p, q | 0 <= p < q < |r|
      ensures r[p] < r[q]
    {
      if q > p + 1 {
        assert r[p] < r[p + 1] && r[p + 1] < r[q];
      }
    }
  }

  lemma CasesOfAlternatives()
    ensures Lower("en") == "en" && Lower("es") == "es" && Upper("US") == "US" && Upper("ES") == "ES"
    ensures AllAlnum("en") && AllAlnum("US") && AllAlnum("es") && AllAlnum("ES") && IsSeparatorRun(" ")
  {
    assert Lower("n") == "n" && Lower("s") == "s";
    assert Upper("S") == "S";
  }

  lemma SplitOfEnUs()
    ensures LocaleSplitted("en-US") == ["en", "en-US"]
  {
    CasesOfAlternatives();
    SeparatorRuns();
    TrimAlnumEnds("en-US");
    assert "en-US" == "en" + "-" + "US";
    TagOfTwo("en-US", "en", "-", "US");
  }

  lemma SplitOfEsSpaceEs()
    ensures LocaleSplitted("es ES") == ["es", "es-ES"]
  {
    CasesOfAlternatives();
    TrimAlnumEnds("es ES");
    assert "es ES" == "es" + " " + "ES";
    TagOfTwo("es ES", "es", " ", "ES");
    assert "es" + "-" + "ES" == "es-ES";
  }

  /** Two alternatives: the second one's forms, then the first one's. */
  lemma AlternativeSplitsTwo(first: string, second: string)
    ensures AlternativeSplits([first, second]) == LocaleSplitted(second) + LocaleSplitted(first)
  {
    assert [first, second][..1] == [first];
    assert AlternativeSplits([first]) == LocaleSplitted(first) + AlternativeSplits([]);
  }

  /** With candidates free of repetitions, the fallback order is the candidates reversed. */
  lemma OrderedOfDistinct(defaults: seq<string>, main: string, alternatives: seq<string>, c: seq<string>)
    requires defaults + AlternativeSplits(alternatives) + LocaleSplitted(main) == c && Distinct(c)
    ensures LocalesOrdered(defaults, main, alternatives) == Reverse(c)
  {
    UniqueDistinct(c);
  }

  lemma CandidatesDistinct(c: seq<string>)
    requires c == ["es", "es-ES", "en", "en-US", "pt", "pt-BR"]
    ensures Distinct(c)
  {
    forall i, j | 0 <= i < j < 6
      ensures c[i] != c[j]
    {
      assert c[i][1] != c[j][1] || c[i][0] != c[j][0] || |c[i]| != |c[j]|;
    }
  }

  /**
   * 'pt.BR' with the alternatives 'en-US' and 'es ES' is tried as 'pt-BR',
   * 'pt', then the first alternative's forms, then the second's.
   */
  lemma OrderedExample()
    ensures LocalesOrdered([], "pt.BR", ["en-US", "es ES"]) == ["pt-BR", "pt", "en-US", "en", "es-ES", "es"]
  {
    SplitOfEnUs();
    SplitOfEsSpaceEs();
    SplitOfDot();
    AlternativeSplitsTwo("en-US", "es ES");
    var c := ExampleCandidates(LocaleSplitted("es ES"), LocaleSplitted("en-US"), LocaleSplitted("pt.BR"));
    CandidatesDistinct(c);
    OrderedOfDistinct([], "pt.BR", ["en-US", "es ES"], c);
  }

  /** The candidate list of the example above, put together from its three tags' forms. */
  lemma ExampleCandidates(second: seq<string>, first: seq<string>, main: seq<string>) returns (c: seq<string>)
    requires second == ["es", "es-ES"] && first == ["en", "en-US"] && main == ["pt", "pt-BR"]
    ensures c == [] + (second + first) + main
    ensures c == ["es", "es-ES", "en", "en-US", "pt", "pt-BR"]
    ensures Reverse(c) == ["pt-BR", "pt", "en-US", "en", "es-ES", "es"]
  {
    c := [] + (second + first) + main;
    assert c == ["es", "es-ES", "en", "en-US", "pt", "pt-BR"];
  }

  /** The position of the first tag the table knows, or the length of the list when it knows none. */
  function FirstKnownAt(table: map<string, Rule>, tags: seq<string>): (i: nat)
    ensures i <= |tags|
    ensures forall j :: 0 <= j < i ==> tags[j] !in table
    ensures i < |tags| ==> tags[i] in table
  {
    if tags == [] || tags[0] in table then 0 else 1 + FirstKnownAt(table, tags[1..])
  }

  /** Those three facts pin the position down. */
  lemma FirstKnownAtIs(table: map<string, Rule>, tags: seq<string>, i: nat)
    requires i <= |tags|
    requires forall j :: 0 <= j < i ==> tags[j] !in table
    requires i < |tags| ==> tags[i] in table
    ensures FirstKnownAt(table, tags) == i
  {
  }

  /** The rule of the first tag the table knows, or the error `getLocaleCallable` throws. */
  function FirstKnown(table: map<string, Rule>, tags: seq<string>): (r: Result<Rule>)
    ensures r.Err? <==> forall i :: 0 <= i < |tags| ==> tags[i] !in table
    ensures r.Err? ==> r.error == LocaleCallableUndefined
    ensures r.Ok? ==> exists i :: 0 <= i < |tags| && tags[i] in table && r.value == table[tags[i]]
                        && forall j :: 0 <= j < i ==> tags[j] !in table
  {
    var i := FirstKnownAt(table, tags);
    if i < |tags| then Ok(table[tags[i]]) else Err(LocaleCallableUndefined)
  }

  /** When `d` is the only tag of the list the table knows, the lookup gives the rule of `d`. */
  lemma FirstKnownOnly(table: map<string, Rule>, tags: seq<string>, d: string)
    requires d in tags && d in table
    requires forall x :: x in tags && x in table ==> x == d
    ensures FirstKnown(table, tags) == Ok(table[d])
  {
    var i := FirstKnownAt(table, tags);
    assert i < |tags| by {
      var k :| 0 <= k < |tags| && tags[k] == d;
    }
    assert tags[i] in tags;
  }

  /** A table that knows one of its default forms never fails a lookup, whatever the tag asked for. */
  lemma DefaultsNeverFail(table: map<string, Rule>, defaults: seq<string>, main: string, alternatives: seq<string>)
    requires Distinct(defaults)
    requires exists d :: d in defaults && d in table
    ensures FirstKnown(table, LocalesOrdered(defaults, main, alternatives)).Ok?
  {
    LocalesOrderedMembers(defaults, main, alternatives);
    var d :| d in defaults && d in table;
    var r := LocalesOrdered(defaults, main, alternatives);
    var i :| 0 <= i < |r| && r[i] == d;
  }

  /**
   * With one default form `d`, a tag none of whose other forms the table
   * knows is answered with the rule of `d`: an unknown tag, or a regional tag
   * whose language is the default, falls back to the default names.
   */
  lemma FallsBackToDefault(table: map<string, Rule>, d: string, main: string)
    requires d in table
    requires forall x :: x in LocaleSplitted(main) && x in table ==> x == d
    ensures FirstKnown(table, LocalesOrdered([d], main, [])) == Ok(table[d])
  {
    LocalesOrderedMembers([d], main, []);
    var r := LocalesOrdered([d], main, []);
    assert r[|r| - 1] == d;
    assert AlternativeSplits([]) == [];
    FirstKnownOnly(table, r, d);
  }

  /** A plain tag the table knows is answered with its own rule, ahead of the default. */
  lemma OwnRuleFirst(table: map<string, Rule>, d: string, tag: string)
    requires |tag| == 2 && forall i :: 0 <= i < 2 ==> 97 <= tag[i] as int <= 122
    requires tag in table
    ensures FirstKnown(table, LocalesOrdered([d], tag, [])) == Ok(table[tag])
  {
    PlainTag(tag);
    var all := [d] + AlternativeSplits([]) + LocaleSplitted(tag);
    assert all == [d, tag];
    assert [d, tag][..1] == [d] && [d][..0] == [];
    assert Unique([d]) == [d];
    if d == tag {
      assert Unique(all) == [d];
    } else {
      assert Unique(all) == [d, tag];
    }
  }

  // ---------------------------------------------------------------------
  // The table

  /** One currency: its table from normalised tag to rule and its default forms. */
  class Currency {
    var locales: map<string, Rule>
    var defaultLocales: seq<string>

    /** An empty currency, as the abstract base class starts. */
    constructor ()
      ensures locales == map[] && defaultLocales == []
    {
      locales := map[];
      defaultLocales := [];
    }

    /** `setDefaultLocale`. */
    method SetDefaultLocale(locale: string)
      modifies this
      ensures defaultLocales == LocaleSplitted(locale)
      ensures locales == old(locales)
    {
      defaultLocales := LocaleSplitted(locale);
    }

    /**
     * `addLocale`: store the rule under the normalised tag; the first tag
     * stored also becomes the default. A tag that normalises to null is refused.
     */
    method AddLocale(locale: string, rule: Rule) returns (outcome: Outcome)
      modifies this
      ensures LocaleNormalized(locale).None? ==>
        outcome == Fail(LocaleUndefined) && locales == old(locales) && defaultLocales == old(defaultLocales)
      ensures LocaleNormalized(locale).Some? ==> outcome == Pass
      ensures LocaleNormalized(locale).Some? ==>
        locales == old(locales)[LocaleNormalized(locale).value := rule]
      ensures LocaleNormalized(locale).Some? ==>
        defaultLocales == if old(locales) == map[] then LocaleSplitted(LocaleNormalized(locale).value)
                          else old(defaultLocales)
    {
      var normalized := LocaleNormalized(locale);
      if normalized.None? {
        return Fail(LocaleUndefined);
      }
      if locales == map[] {
        SetDefaultLocale(normalized.value);
      }
      locales := locales[normalized.value := rule];
      outcome := Pass;
    }

    /**
     * `addLocaleAlias`: the alias shares the base's rule; an unknown base is
     * refused. Both tags are looked up as PHP array keys, so a tag that
     * normalises to null stands for the key "": an alias stored there, and a
     * base found there.
     */
    method AddLocaleAlias(alias: string, base: string) returns (outcome: Outcome)
      modifies this
      ensures defaultLocales == old(defaultLocales)
      ensures outcome.Fail? <==> AliasKey(base) !in old(locales)
      ensures outcome.Fail? ==> outcome.error == LocaleUndefined && locales == old(locales)
      ensures outcome.Pass? ==>
        locales == old(locales)[AliasKey(alias) := old(locales)[AliasKey(base)]]
    {
      var baseKey := AliasKey(base);
      if baseKey !in locales {
        return Fail(LocaleUndefined);
      }
      locales := locales[AliasKey(alias) := locales[baseKey]];
      outcome := Pass;
    }

    /** `addLocaleCommon`. */
    method AddLocaleCommon(locale: string, integerSingular: string, integerPlural: string,
                           decimalSingular: string, decimalPlural: string) returns (outcome: Outcome)
      modifies this
      ensures LocaleNormalized(locale).None? ==>
        outcome == Fail(LocaleUndefined) && locales == old(locales) && defaultLocales == old(defaultLocales)
      ensures LocaleNormalized(locale).Some? ==> outcome == Pass
      ensures LocaleNormalized(locale).Some? ==>
        locales == old(locales)[LocaleNormalized(locale).value :=
                                 Common(integerSingular, integerPlural, decimalSingular, decimalPlural)]
      ensures LocaleNormalized(locale).Some? ==>
        defaultLocales == if old(locales) == map[] then LocaleSplitted(LocaleNormalized(locale).value)
                          else old(defaultLocales)
    {
      outcome := AddLocale(locale, Common(integerSingular, integerPlural, decimalSingular, decimalPlural));
    }

    /**
     * `getLocaleCallable`: walk the ordered tags and return the rule of the
     * first one in the table; if none is there, fail.
     */
    method GetLocaleCallable(main: string, alternatives: seq<string>) returns (r: Result<Rule>)
      ensures r == FirstKnown(locales, LocalesOrdered(defaultLocales, main, alternatives))
    {
      var tags := LocalesOrdered(defaultLocales, main, alternatives);
      var i := 0;
      while i < |tags|
        invariant 0 <= i <= |tags|
        invariant forall j :: 0 <= j < i ==> tags[j] !in locales
      {
        if tags[i] in locales {
          FirstKnownAtIs(locales, tags, i);
          return Ok(locales[tags[i]]);
        }
        i := i + 1;
      }
      FirstKnownAtIs(locales, tags, |tags|);
      r := Err(LocaleCallableUndefined);
    }

    /** DollarCurrency: English names first (so English is the default), Portuguese, Spanish as Portuguese. */
    constructor Dollar()
      ensures locales == DollarTable && defaultLocales == ["en"]
    {
      locales := map[];
      defaultLocales := [];
      new;
      TagsOfBuiltIns();
      TablesBuilt();
      var added := AddLocaleCommon("en", "dollar", "dollars", "cent", "cents");
      assert locales == map["en" := DollarEn] && defaultLocales == ["en"];
      assert "en" in locales;
      added := AddLocaleCommon("pt", "dólar", "dólares", "centavo", "centavos");
      assert locales == map["en" := DollarEn]["pt" := DollarPt];
      added := AddLocaleAlias("es", "pt");
    }

    /** RealCurrency: Portuguese names first (so Portuguese is the default), English, Spanish as Portuguese. */
    constructor Real()
      ensures locales == RealTable && defaultLocales == ["pt"]
    {
      locales := map[];
      defaultLocales := [];
      new;
      TagsOfBuiltIns();
      TablesBuilt();
      var added := AddLocaleCommon("pt", "real", "reais", "centavo", "centavos");
      assert locales == map["pt" := RealPt] && defaultLocales == ["pt"];
      assert "pt" in locales;
      added := AddLocaleCommon("en", "real", "reais", "cent", "cents");
      assert locales == map["pt" := RealPt]["en" := RealEn];
      added := AddLocaleAlias("es", "pt");
    }
  }

  /** The array key a tag stands for in `addLocaleAlias` (PHP turns a null key into ""). */
  function AliasKey(alias: string): string {
    match LocaleNormalized(alias)
    case Some(tag) => tag
    case None => ""
  }

  const DollarEn := Common("dollar", "dollars", "cent", "cents")
  const DollarPt := Common("dólar", "dólares", "centavo", "centavos")
  const DollarTable := map["en" := DollarEn, "pt" := DollarPt, "es" := DollarPt]

  const RealPt := Common("real", "reais", "centavo", "centavos")
  const RealEn := Common("real", "reais", "cent", "cents")
  const RealTable := map["pt" := RealPt, "en" := RealEn, "es" := RealPt]

  /** A two-letter lower-case tag is its own split and its own normal form. */
  lemma PlainTag(tag: string)
    requires |tag| == 2 && forall i :: 0 <= i < 2 ==> 97 <= tag[i] as int <= 122
    ensures LocaleSplitted(tag) == [tag]
    ensures LocaleNormalized(tag) == Some(tag)
  {
    assert TrimLeft(tag) == tag;
    assert TrimRight(tag) == tag;
    assert FirstSeparator(tag[1..][1..]) == None;
    assert FirstSeparator(tag[1..]) == None;
    assert Split3(tag) == [tag];
    assert Lower(tag[1..][1..]) == "";
    assert Lower(tag) == tag;
  }

  /**
   * DollarCurrency: each tag of its table ("en" the dollar names, "pt" and
   * "es" the Portuguese ones) is answered with its own rule ahead of the default.
   */
  lemma DollarLookups(tag: string)
    requires tag in DollarTable
    ensures FirstKnown(DollarTable, LocalesOrdered(["en"], tag, [])) == Ok(DollarTable[tag])
  {
    OwnRuleFirst(DollarTable, "en", tag);
  }

  /** DollarCurrency: a tag with no known form other than "en" ("en-US", "fr") gets the English names. */
  lemma DollarFallback(main: string)
    requires forall x :: x in LocaleSplitted(main) && x in DollarTable ==> x == "en"
    ensures FirstKnown(DollarTable, LocalesOrdered(["en"], main, [])) == Ok(Common("dollar", "dollars", "cent", "cents"))
  {
    DefaultEntries();
    FallsBackToDefault(DollarTable, "en", main);
  }

  /**
   * RealCurrency: each tag of its table ("pt" and "es" the Portuguese names
   * of the real, "en" the English ones) is answered with its own rule.
   */
  lemma RealLookups(tag: string)
    requires tag in RealTable
    ensures FirstKnown(RealTable, LocalesOrdered(["pt"], tag, [])) == Ok(RealTable[tag])
  {
    OwnRuleFirst(RealTable, "pt", tag);
  }

  /** RealCurrency: a tag with no known form other than "pt" ("pt-BR", "fr") gets the Portuguese names. */
  lemma RealFallback(main: string)
    requires forall x :: x in LocaleSplitted(main) && x in RealTable ==> x == "pt"
    ensures FirstKnown(RealTable, LocalesOrdered(["pt"], main, [])) == Ok(Common("real", "reais", "centavo", "centavos"))
  {
    DefaultEntries();
    FallsBackToDefault(RealTable, "pt", main);
  }

  lemma TagsOfBuiltIns()
    ensures LocaleSplitted("en") == ["en"] && LocaleNormalized("en") == Some("en")
    ensures LocaleSplitted("pt") == ["pt"] && LocaleNormalized("pt") == Some("pt")
    ensures LocaleNormalized("es") == Some("es")
    ensures AliasKey("es") == "es" && AliasKey("pt") == "pt"
    ensures "en" != "pt" && "es" != "pt" && "es" != "en"
  {
    TagsDiffer();
    TagEn();
    TagPt();
    TagEs();
  }

  lemma TagEn()
    ensures LocaleSplitted("en") == ["en"] && LocaleNormalized("en") == Some("en")
  {
    PlainTag("en");
  }

  lemma TagPt()
    ensures LocaleSplitted("pt") == ["pt"] && LocaleNormalized("pt") == Some("pt") && AliasKey("pt") == "pt"
  {
    PlainTag("pt");
    AliasKeyOfPlain("pt");
  }

  lemma TagEs()
    ensures LocaleNormalized("es") == Some("es") && AliasKey("es") == "es"
  {
    PlainTag("es");
    AliasKeyOfPlain("es");
  }

  lemma AliasKeyOfPlain(tag: string)
    requires LocaleNormalized(tag) == Some(tag)
    ensures AliasKey(tag) == tag
  {
  }

  /** The tables the two constructors build, one step at a time. */
  lemma TablesBuilt()
    ensures "pt" in map["en" := DollarEn]["pt" := DollarPt]
    ensures map["en" := DollarEn]["pt" := DollarPt]["pt"] == DollarPt
    ensures map["en" := DollarEn]["pt" := DollarPt]["es" := DollarPt] == DollarTable
    ensures "pt" in map["pt" := RealPt]["en" := RealEn]
    ensures map["pt" := RealPt]["en" := RealEn]["pt"] == RealPt
    ensures map["pt" := RealPt]["en" := RealEn]["es" := RealPt] == RealTable
  {
    TagsDiffer();
  }

  /** The default tag's entry of each table. */
  lemma DefaultEntries()
    ensures "en" in DollarTable && DollarTable["en"] == Common("dollar", "dollars", "cent", "cents")
    ensures "pt" in RealTable && RealTable["pt"] == Common("real", "reais", "centavo", "centavos")
  {
    TagsDiffer();
  }

  lemma TagsDiffer()
    ensures "en" != "pt" && "es" != "pt" && "es" != "en"
  {
    assert "en"[0] != "pt"[0] && "es"[0] != "pt"[0] && "es"[1] != "en"[1];
  }
}

/** Exactly which texts the parser takes, and what it makes of them: those of the
    lenient grammar and no others. And what it does with containers that are not
    among them. */
module Language {
  import opened Json
  import opened Parser
  import opened NormalForm
  import opened Grammar

  /** From `q` on lies the text of this tree, and the parser stops behind it. */
  ghost predicate Reads(s: string, q: nat, d: Doc, v: Value, e: nat)
  {
    var t := q + |Text(d)|;
    Lenient(d) && At(s, q, Text(d)) && Follows(s, t, d) && v == Meaning(d) && e == Stop(s, t, d)
  }

  // ------------------------------------------------------------------ scalars

  lemma {:induction false} SkipRead(s: string, p: nat)
    requires p <= |s|
    ensures var q := SkipSpace(s, p); Blank(s[p..q]) && At(s, p, s[p..q]) && (q < |s| ==> !IsSpace(s[q]))
    decreases |s| - p
  {
    if p < |s| && IsSpace(s[p]) {
      SkipRead(s, p + 1);
      assert s[p..SkipSpace(s, p)] == [s[p]] + s[p + 1..SkipSpace(s, p)];
    }
    AtSlice(s, p, s[p..SkipSpace(s, p)]);
  }

  lemma OneMoreDigit(done: string, c: char)
    requires IsDigit(c)
    ensures DigitsValue(done + [c]) == DigitsValue(done) * 10 + DigitValue(c)
  {
    assert (done + [c])[..|done|] == done;
  }

  lemma {:induction false} DigitRunRead(s: string, p: nat, done: string)
    requires p <= |s| && DigitsValue(done) <= MAX_INT && DigitRun(s, p, DigitsValue(done)).Some?
    ensures var (v, e) := DigitRun(s, p, DigitsValue(done)).value;
      && e <= |s| && Digits(s[p..e]) && v == DigitsValue(done + s[p..e]) <= MAX_INT && (e < |s| ==> !IsDigit(s[e]))
      && (p < |s| && IsDigit(s[p]) ==> p < e)
    decreases |s| - p
  {
    hide DigitsValue;
    var (v, e) := DigitRun(s, p, DigitsValue(done)).value;
    if p < |s| && IsDigit(s[p]) {
      var next := done + [s[p]];
      OneMoreDigit(done, s[p]);
      DigitRunRead(s, p + 1, next);
      assert s[p..e] == [s[p]] + s[p + 1..e];
      assert next + s[p + 1..e] == done + s[p..e];
    } else {
      assert done + s[p..e] == done;
    }
  }

  /** The digits of an integer, which may be missing, and the blanks before them. */
  lemma IntegerRead(s: string, p: nat) returns (b: nat, e: nat)
    requires p <= |s| && ParseInteger(s, p).Ok?
    ensures b == SkipSpace(s, p) && b <= e <= |s| && Blank(s[p..b]) && Digits(s[b..e]) && DigitsValue(s[b..e]) <= MAX_INT
    ensures ParseInteger(s, p) == Ok(DigitsValue(s[b..e]), SkipSpace(s, e)) && EndsDigits(s, e)
    ensures b < |s| && IsDigit(s[b]) ==> b < e
    ensures b == e ==> !IsDigit(s[SkipSpace(s, e)]) && SkipSpace(s, e) == b
  {
    b := SkipSpace(s, p);
    SkipRead(s, p);
    NoValue();
    DigitRunRead(s, b, "");
    e := DigitRun(s, b, 0).value.1;
    assert "" + s[b..e] == s[b..e];
    SkipTwice(s, p);
  }

  lemma {:induction false} FractionRead(s: string, p: nat)
    requires p <= |s|
    ensures var e := FractionEnd(s, p); e <= |s| && Digits(s[p..e]) && (e < |s| ==> !IsDigit(s[e]))
    decreases |s| - p
  {
    if p < |s| && IsDigit(s[p]) {
      FractionRead(s, p + 1);
      var e := FractionEnd(s, p);
      assert s[p..e] == [s[p]] + s[p + 1..e];
    }
  }

  /** Two stretches of memory side by side. */
  lemma Beside(s: string, p: nat, q: nat, t: string)
    requires p <= q <= |s| && At(s, q, t)
    ensures At(s, p, s[p..q] + t) && |s[p..q]| == q - p
  {
    AtSlice(s, p, s[p..q]);
    AtJoin(s, p, s[p..q], t);
  }

  lemma FiveBeside(s: string, p: nat, q: nat, i: nat, b: nat, e: nat)
    requires p < q <= i <= b <= e <= |s|
    ensures At(s, p, [s[p]] + (s[p + 1..q] + (s[q..i] + (s[i..b] + s[b..e]))))
  {
    hide At;
    AtSlice(s, b, s[b..e]);
    Beside(s, i, b, s[b..e]);
    Beside(s, q, i, s[i..b] + s[b..e]);
    Beside(s, p + 1, q, s[q..i] + (s[i..b] + s[b..e]));
    Beside(s, p, p + 1, s[p + 1..q] + (s[q..i] + (s[i..b] + s[b..e])));
    assert [s[p]] == s[p..p + 1];
  }

  /** Where the sign of an exponent ends, and where its digits begin and end. */
  lemma ExponentParts(s: string, p: nat, neg: bool, whole: nat, fraction: string) returns (q: nat, i: nat, b: nat, e: nat)
    requires p < |s| && ParseExponent(s, p, neg, whole, fraction).Ok?
    ensures p < q <= i <= b <= e <= |s| && q < |s| && Blank(s[p + 1..q]) && Blank(s[i..b]) && Digits(s[b..e])
    ensures i == if s[q] == '+' || s[q] == '-' then q + 1 else q
    ensures i == q ==> b == i
    ensures EndsDigits(s, e) && DigitsValue(s[b..e]) < EXPONENT_LIMIT
    ensures b == e ==> !IsDigit(s[SkipSpace(s, e)]) && (i == q ==> SkipSpace(s, e) == q)
    ensures ParseExponent(s, p, neg, whole, fraction)
      == Ok(Decimal(Lexeme(neg, whole, fraction, Some((s[q] == '-', DigitsValue(s[b..e]))))), SkipSpace(s, e))
  {
    hide SkipSpace, ParseInteger, DigitsValue;
    q := SkipSpace(s, p + 1);
    SkipRead(s, p + 1);
    i := if s[q] == '+' || s[q] == '-' then q + 1 else q;
    b, e := IntegerRead(s, i);
    SkipTwice(s, p + 1);
  }

  lemma ExponentRead(s: string, p: nat, before: string, neg: bool, whole: nat, fraction: string) returns (x: Exponent, e: nat)
    requires p < |s| && (s[p] == 'e' || s[p] == 'E') && Blank(before) && ParseExponent(s, p, neg, whole, fraction).Ok?
    ensures LenientExponent(Some(x)) && x.before == before && EndsExponent(s, e, x)
    ensures At(s, p, [x.mark] + (x.gap + (x.sign + (x.lead + x.digits))))
    ensures e == p + 1 + |x.gap| + |x.sign| + |x.lead| + |x.digits|
    ensures ParseExponent(s, p, neg, whole, fraction)
      == Ok(Decimal(Lexeme(neg, whole, fraction, ExponentMeaning(Some(x)))), SkipSpace(s, e))
  {
    hide SkipSpace, ParseExponent, DigitsValue, At, Blank, Digits, EndsDigits;
    var q, i, b;
    q, i, b, e := ExponentParts(s, p, neg, whole, fraction);
    x := Exponent(before, s[p], s[p + 1..q], s[q..i], s[i..b], s[b..e]);
    FiveBeside(s, p, q, i, b, e);
    DigitsEnd(s, e);
  }

  lemma DigitsEnd(s: string, e: nat)
    requires EndsDigits(s, e)
    ensures SkipSpace(s, e) < |s|
  {
  }

  /** Where the fraction of a decimal begins and ends. */
  lemma FractionParts(s: string, p: nat, neg: bool, whole: nat) returns (b: nat, e: nat)
    requires p < |s| && ParseDecimal(s, p, neg, whole).Ok?
    ensures p < b <= e <= |s| && Blank(s[p + 1..b]) && Digits(s[b..e]) && EndsDigits(s, e)
    ensures b == e ==> !IsDigit(s[SkipSpace(s, e)])
    ensures var q := SkipSpace(s, e);
      ParseDecimal(s, p, neg, whole) ==
        if s[q] == 'e' || s[q] == 'E' then ParseExponent(s, q, neg, whole, s[b..e])
        else Ok(Decimal(Lexeme(neg, whole, s[b..e], None)), q)
  {
    hide SkipSpace, ParseExponent, FractionEnd;
    b := SkipSpace(s, p + 1);
    SkipRead(s, p + 1);
    e := FractionEnd(s, b);
    FractionRead(s, b);
    SkipTwice(s, p + 1);
  }

  lemma FractionBeside(s: string, p: nat, b: nat, e: nat, tail: string)
    requires p < b <= e <= |s| && s[p] == '.' && At(s, e, tail)
    ensures At(s, p, "." + (s[p + 1..b] + (s[b..e] + tail)))
  {
    hide At;
    Beside(s, b, e, tail);
    Beside(s, p + 1, b, s[b..e] + tail);
    Beside(s, p, p + 1, s[p + 1..b] + (s[b..e] + tail));
    assert "." == s[p..p + 1];
  }

  /** The point of a decimal and what is behind it. */
  lemma DecimalRead(s: string, p: nat, neg: bool, digits: string, gap: string) returns (d: Doc)
    requires p < |s| && s[p] == '.' && Whole(digits) && Blank(gap)
    requires ParseDecimal(s, p, neg, DigitsValue(digits)).Ok?
    ensures d.DocDecimal? && Lenient(d) && d.neg == neg && d.digits == digits && d.gap == gap
    ensures At(s, p, "." + (d.lead + (d.fraction + ExponentText(d.exponent))))
    ensures var t := p + 1 + |d.lead| + |d.fraction| + |ExponentText(d.exponent)|;
      Follows(s, t, d) && ParseDecimal(s, p, neg, DigitsValue(digits)) == Ok(Meaning(d), SkipSpace(s, t))
  {
    hide SkipSpace, ParseExponent, DigitsValue, At, ParseDecimal, Blank, Digits;
    var b, e := FractionParts(s, p, neg, DigitsValue(digits));
    var lead, fraction, q := s[p + 1..b], s[b..e], SkipSpace(s, e);
    DigitsEnd(s, e);
    SkipRead(s, e);
    if s[q] == 'e' || s[q] == 'E' {
      var x, t := ExponentRead(s, q, s[e..q], neg, DigitsValue(digits), fraction);
      d := DocDecimal(neg, digits, gap, lead, fraction, Some(x));
      Beside(s, e, q, [x.mark] + (x.gap + (x.sign + (x.lead + x.digits))));
      FractionBeside(s, p, b, e, ExponentText(d.exponent));
      assert t == p + 1 + |d.lead| + |d.fraction| + |ExponentText(d.exponent)|;
    } else {
      d := DocDecimal(neg, digits, gap, lead, fraction, None);
      NowhereAt(s, e);
      FractionBeside(s, p, b, e, "");
    }
  }

  /** A sign, if there is one, and what is behind it. */
  lemma SignBeside(s: string, p: nat, neg: bool, t: string)
    requires p < |s| && (neg <==> s[p] == '-') && At(s, if neg then p + 1 else p, t)
    ensures At(s, p, Signed(neg, t))
  {
  }

  lemma WholeRead(s: string, p: nat) returns (e: nat)
    requires p < |s| && IsDigit(s[p]) && ParseInteger(s, p).Ok?
    ensures p < e < |s| && Whole(s[p..e]) && At(s, p, s[p..e]) && EndsDigits(s, e)
    ensures ParseInteger(s, p) == Ok(DigitsValue(s[p..e]), SkipSpace(s, e))
  {
    hide DigitsValue, ParseInteger;
    var b;
    b, e := IntegerRead(s, p);
    AtSlice(s, p, s[p..e]);
    DigitsEnd(s, e);
  }

  lemma MinusAt(s: string, p: nat)
    requires p < |s| && s[p] == '-'
    ensures At(s, p, "-")
  {
    AtSlice(s, p, "-");
    assert s[p..p + 1] == "-";
  }

  lemma NumberRead(s: string, p: nat) returns (d: Doc)
    requires p < |s| && (s[p] == '-' || IsDigit(s[p])) && ParseNumber(s, p).Ok?
    ensures Reads(s, p, d, ParseNumber(s, p).v, ParseNumber(s, p).p)
  {
    hide SkipSpace, ParseInteger, ParseDecimal, DigitsValue, At, Blank, Digits;
    var neg := s[p] == '-';
    var q := if neg then p + 1 else p;
    if !IsDigit(s[q]) {
      d := DocMinus;
      MinusAt(s, p);
    } else {
      var e := WholeRead(s, q);
      var t := SkipSpace(s, e);
      SkipRead(s, e);
      if s[t] == '.' {
        d := DecimalRead(s, t, neg, s[q..e], s[e..t]);
        DecimalBeside(s, p, q, e, t, d);
      } else {
        d := DocInt(neg, s[q..e]);
        SignBeside(s, p, neg, s[q..e]);
      }
    }
  }

  lemma DecimalBeside(s: string, p: nat, q: nat, e: nat, t: nat, d: Doc)
    requires p < |s| && d.DocDecimal? && (d.neg <==> s[p] == '-') && q == (if d.neg then p + 1 else p)
    requires q <= e <= t <= |s| && d.digits == s[q..e] && d.gap == s[e..t]
    requires At(s, t, "." + (d.lead + (d.fraction + ExponentText(d.exponent))))
    ensures At(s, p, Text(d)) && p + |Text(d)| == t + 1 + |d.lead| + |d.fraction| + |ExponentText(d.exponent)|
  {
    hide At, ExponentText;
    var behind := "." + (d.lead + (d.fraction + ExponentText(d.exponent)));
    Beside(s, e, t, behind);
    Beside(s, q, e, d.gap + behind);
    SignBeside(s, p, d.neg, d.digits + (d.gap + behind));
  }

  lemma {:induction false} StringEndsInQuote(s: string, p: nat)
    requires StringEnd(s, p) < |s|
    ensures s[StringEnd(s, p)] == '\"'
    decreases |s| - p
  {
    if s[p] != '\"' { StringEndsInQuote(s, if s[p] == '\\' then p + 2 else p + 1); }
  }

  /** A string, after blanks. */
  lemma StringRead(s: string, p: nat) returns (raw: string)
    requires p <= |s| && ParseString(s, p).Ok?
    ensures var q := SkipSpace(s, p);
      EscapeClosed(raw) && At(s, q, "\"" + (raw + "\"")) && ParseString(s, p) == Ok(raw, q + |raw| + 2)
  {
    hide SkipSpace, StringEnd, At, EscapeClosed;
    var q := SkipSpace(s, p);
    var e := StringEnd(s, q + 1);
    raw := s[q + 1..e];
    StringBodyIsClosed(s, q + 1);
    StringEndsInQuote(s, q + 1);
    AtSlice(s, e, "\"");
    assert s[e..e + 1] == "\"";
    Beside(s, q + 1, e, "\"");
    assert s[q..q + 1] == "\"";
    Beside(s, q, q + 1, raw + "\"");
  }

  // ------------------------------------------------------------------- values

  /** Values that are no containers. */
  lemma ScalarRead(s: string, p: nat) returns (d: Doc)
    requires SkipSpace(s, p) < |s| && s[SkipSpace(s, p)] != '{' && s[SkipSpace(s, p)] != '['
    requires ParseValue(s, p).Ok? && ParseValue(s, p).p <= |s|
    ensures Reads(s, SkipSpace(s, p), d, ParseValue(s, p).v, ParseValue(s, p).p)
  {
    hide SkipSpace, ParseArray, ParseObject, ParseNumber, ParseString, At, EscapeClosed, DigitsValue;
    var q := SkipSpace(s, p);
    var c := s[q];
    SkipTwice(s, p);
    if c == '\"' {
      var raw := StringRead(s, q);
      d := DocStr(raw);
      assert Text(d) == "\"" + (raw + "\"");
    } else if c == 'n' || c == 't' {
      d := DocWord(s[q..q + 4]);
      AtSlice(s, q, s[q..q + 4]);
    } else if c == 'f' {
      d := DocWord(s[q..q + 5]);
      AtSlice(s, q, s[q..q + 5]);
    } else if c == '-' || IsDigit(c) {
      d := NumberRead(s, q);
    } else {
      d := DocNothing;
      NowhereAt(s, q);
      NothingParses(s, q);
      ValueSkips(s, p);
    }
  }

  lemma {:induction false} ValueRead(s: string, p: nat) returns (d: Doc)
    requires p <= |s| && ParseValue(s, p).Ok? && ParseValue(s, p).p <= |s|
    ensures Reads(s, SkipSpace(s, p), d, ParseValue(s, p).v, ParseValue(s, p).p)
    decreases Left(s, p), 1
  {
    hide SkipSpace, ParseArray, ParseObject, ParseNumber, ParseString, At, Lenient, Text, Meaning;
    var q := SkipSpace(s, p);
    if s[q] == '{' {
      d := ObjectRead(s, q);
    } else if s[q] == '[' {
      d := ArrayRead(s, q);
    } else {
      d := ScalarRead(s, p);
    }
  }

  lemma {:induction false} ItemRead(s: string, p: nat) returns (i: Item)
    requires p <= |s| && Element(s, p).Ok?
    ensures LenientItem(i) && At(s, p, ItemText(i)) && Element(s, p) == Ok(Meaning(i.doc), p + |ItemText(i)|)
    ensures i.doc.DocNothing? ==> SkipSpace(s, p) == p + |ItemText(i)|
    ensures p + |ItemText(i)| < |s| && !IsSpace(s[p + |ItemText(i)|]) && Follows(s, p + |i.before| + |Text(i.doc)|, i.doc)
    decreases Left(s, p), 2
  {
    hide SkipSpace, ParseValue, At, Lenient, Text, Meaning, Follows, Blank;
    var b := SkipSpace(s, p);
    SkipRead(s, p);
    SkipTwice(s, p);
    var r := ParseValue(s, b);
    var d := ValueRead(s, b);
    var u := b + |Text(d)|;
    SkipTwice(s, u);
    var t := SkipSpace(s, u);
    AtWithin(s, b, Text(d));
    SkipRead(s, u);
    i := Item(s[p..b], d, s[u..t]);
    AtJoin(s, b, Text(d), i.after);
    Beside(s, p, b, Text(d) + i.after);
    if d.DocNothing? { NothingText(d); }
  }

  lemma AtWithin(s: string, p: nat, t: string)
    requires At(s, p, t)
    ensures p + |t| <= |s|
  {
  }

  lemma {:induction false} ArrayRead(s: string, p: nat) returns (d: Doc)
    requires p < |s| && s[p] == '[' && ParseArray(s, p).Ok?
    ensures d.DocArray? && Reads(s, p, d, ParseArray(s, p).v, ParseArray(s, p).p)
    decreases Left(s, p), 0
  {
    hide SkipSpace, ArrayLoop, At, ItemsText, DigitsValue, EscapeClosed, Blank;
    var q := SkipSpace(s, p + 1);
    SkipRead(s, p + 1);
    if s[q] == ']' {
      d := DocArray(s[p + 1..q], []);
      Bracketed(s, p, q, '[', s[p + 1..q], ']');
      assert Text(d) == "[" + (d.blank + "]");
      assert Lenient(d) && Meaning(d) == ParseArray(s, p).v;
    } else {
      ArrayLoopSkips(s, p + 1);
      var items := ArrayLoopRead(s, p + 1, []);
      d := DocArray("", items);
      NoBlank();
      AtOpen(s, p, ItemsText(items) + "]");
      assert Text(d) == "[" + (ItemsText(items) + "]");
      assert Lenient(d) && Meaning(d) == ParseArray(s, p).v;
    }
  }

  lemma NoBlank()
    ensures Blank("")
  {
  }

  lemma AtOpen(s: string, p: nat, t: string)
    requires p < |s| && At(s, p + 1, t)
    ensures At(s, p, [s[p]] + t)
  {
  }

  lemma Bracketed(s: string, p: nat, q: nat, open: char, blank: string, close: char)
    requires p < q < |s| && s[p] == open && s[q] == close && blank == s[p + 1..q]
    ensures At(s, p, [open] + (blank + [close]))
  {
    AtSlice(s, q, [close]);
    assert s[q..q + 1] == [close];
    Beside(s, p + 1, q, [close]);
    AtOpen(s, p, blank + [close]);
  }

  lemma {:induction false} ArrayLoopRead(s: string, p: nat, acc: seq<Value>) returns (items: seq<Item>)
    requires p <= |s| && ArrayLoop(s, p, acc).Ok?
    ensures items != [] && (forall i | 0 <= i < |items| :: LenientItem(items[i])) && At(s, p, ItemsText(items) + "]")
    ensures ArrayLoop(s, p, acc) == Ok(Array(ItemsMeaning(items, acc)), p + |ItemsText(items)| + 1)
    ensures |items| == 1 && items[0].doc.DocNothing? ==> SkipSpace(s, p) < |s| && s[SkipSpace(s, p)] == ']'
    decreases Left(s, p), 3
  {
    hide SkipSpace, Element, At, ItemText, LenientItem, Meaning;
    var i := ItemRead(s, p);
    var t := p + |ItemText(i)|;
    if s[t] == ']' {
      items := [i];
      CloseAt(s, p, ItemText(i), ']');
    } else {
      var rest := ArrayLoopRead(s, t + 1, acc + [Meaning(i.doc)]);
      items := [i] + rest;
      assert items[1..] == rest;
      AtOpen(s, t, ItemsText(rest) + "]");
      AtJoin(s, p, ItemText(i), "," + (ItemsText(rest) + "]"));
      assert ItemsText(items) + "]" == ItemText(i) + ("," + (ItemsText(rest) + "]"));
    }
  }

  lemma CloseAt(s: string, p: nat, t: string, close: char)
    requires At(s, p, t) && p + |t| < |s| && s[p + |t|] == close
    ensures At(s, p, t + [close])
  {
    AtSlice(s, p + |t|, [close]);
    assert s[p + |t|..p + |t| + 1] == [close];
    AtJoin(s, p, t, [close]);
  }

  lemma KeyRead(s: string, p: nat) returns (before: string, key: string, mid: string)
    requires p <= |s| && ParseKey(s, p).Ok?
    ensures Blank(before) && EscapeClosed(key) && Blank(mid)
    ensures At(s, p, before + ("\"" + (key + ("\"" + (mid + ":")))))
    ensures ParseKey(s, p) == Ok(key, p + |before| + |key| + |mid| + 3)
  {
    hide SkipSpace, ParseString, At, EscapeClosed, Blank;
    var q := SkipSpace(s, p);
    SkipRead(s, p);
    SkipTwice(s, p);
    key := StringRead(s, q);
    var e := q + |key| + 2;
    SkipRead(s, e);
    var c := SkipSpace(s, e);
    before, mid := s[p..q], s[e..c];
    CloseAt(s, e, mid, ':');
    AtJoin(s, q, "\"" + (key + "\""), mid + ":");
    assert ("\"" + (key + "\"")) + (mid + ":") == "\"" + (key + ("\"" + (mid + ":")));
    Beside(s, p, q, "\"" + (key + ("\"" + (mid + ":"))));
  }

  lemma {:induction false} FieldRead(s: string, p: nat) returns (f: Field)
    requires p <= |s| && Entry(s, p).Ok?
    ensures LenientField(f) && At(s, p, FieldText(f))
    ensures Entry(s, p) == Ok(Member(f.key, Meaning(f.item.doc)), p + |FieldText(f)|)
    decreases Left(s, p), 3
  {
    hide SkipSpace, ParseKey, Element, At, ItemText, LenientItem, Meaning, EscapeClosed, Blank;
    var before, key, mid := KeyRead(s, p);
    var i := ItemRead(s, ParseKey(s, p).p);
    f := Field(before, key, mid, i);
    AtJoin(s, p, KeyText(f), ItemText(i));
  }

  lemma {:induction false} ObjectLoopRead(s: string, p: nat, acc: seq<Member>) returns (fields: seq<Field>)
    requires p <= |s| && ObjectLoop(s, p, acc).Ok?
    ensures fields != [] && (forall i | 0 <= i < |fields| :: LenientField(fields[i])) && At(s, p, FieldsText(fields) + "}")
    ensures ObjectLoop(s, p, acc) == Ok(Object(FieldsMeaning(fields, acc)), p + |FieldsText(fields)| + 1)
    decreases Left(s, p), 4
  {
    hide Entry, At, FieldText, LenientField, Meaning, Put;
    var f := FieldRead(s, p);
    var t := p + |FieldText(f)|;
    if s[t] == '}' {
      fields := [f];
      CloseAt(s, p, FieldText(f), '}');
    } else {
      var rest := ObjectLoopRead(s, t + 1, Put(acc, f.key, Meaning(f.item.doc)));
      fields := [f] + rest;
      assert fields[1..] == rest;
      AtOpen(s, t, FieldsText(rest) + "}");
      AtJoin(s, p, FieldText(f), "," + (FieldsText(rest) + "}"));
      assert FieldsText(fields) + "}" == FieldText(f) + ("," + (FieldsText(rest) + "}"));
    }
  }

  lemma {:induction false} ObjectRead(s: string, p: nat) returns (d: Doc)
    requires p < |s| && s[p] == '{' && ParseObject(s, p).Ok?
    ensures d.DocObject? && Reads(s, p, d, ParseObject(s, p).v, ParseObject(s, p).p)
    decreases Left(s, p), 0
  {
    hide SkipSpace, ObjectLoop, At, FieldsText, DigitsValue, EscapeClosed, Blank;
    var q := SkipSpace(s, p + 1);
    SkipRead(s, p + 1);
    if s[q] == '}' {
      d := DocObject(s[p + 1..q], []);
      Bracketed(s, p, q, '{', s[p + 1..q], '}');
      assert Text(d) == "{" + (d.blank + "}");
      assert Lenient(d) && Meaning(d) == ParseObject(s, p).v;
    } else {
      ObjectLoopSkips(s, p + 1);
      var fields := ObjectLoopRead(s, p + 1, []);
      d := DocObject("", fields);
      NoBlank();
      AtOpen(s, p, FieldsText(fields) + "}");
      assert Text(d) == "{" + (FieldsText(fields) + "}");
      assert Lenient(d) && Meaning(d) == ParseObject(s, p).v;
    }
  }

  /** Main result: the parser takes a text, within the memory, if and only if a text
      of the lenient grammar lies there; the value is its meaning, and the cursor
      stops behind it. */
  lemma ParsesExactly(s: string, p: nat, v: Value, e: nat)
    requires p <= |s| && e <= |s|
    ensures ParseValue(s, p) == Ok(v, e) <==> exists d :: Reads(s, SkipSpace(s, p), d, v, e)
  {
    hide ParseValue, SkipSpace, At, Text, Lenient, Meaning, Follows;
    if ParseValue(s, p) == Ok(v, e) {
      var d := ValueRead(s, p);
    }
    forall d | Reads(s, SkipSpace(s, p), d, v, e) ensures ParseValue(s, p) == Ok(v, e) {
      ValueParses(s, SkipSpace(s, p), d);
      ValueSkips(s, p);
    }
  }
}

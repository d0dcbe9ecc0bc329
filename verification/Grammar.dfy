/** JSON texts as concrete syntax trees, with arbitrary blanks between tokens
    (section 2 of RFC 8259) and members in any order, repeats included; and, beyond
    them, all that the parser lets pass: words of which only the first letter counts,
    values that are not there, a lone minus, decimals with blanks around their point.
    The parser reads back the meaning of every such text. */
module Grammar {
  import opened Json
  import opened Parser
  import opened NormalForm

  datatype Doc =
    | DocWord(letters: string)
    | DocInt(neg: bool, digits: string)
    | DocDecimal(neg: bool, digits: string, gap: string, lead: string, fraction: string, exponent: Option<Exponent>)
    | DocMinus
    | DocNothing
    | DocStr(raw: string)
    | DocArray(blank: string, items: seq<Item>)
    | DocObject(blank: string, fields: seq<Field>)

  datatype Exponent = Exponent(before: string, mark: char, gap: string, sign: string, lead: string, digits: string)

  datatype Item = Item(before: string, doc: Doc, after: string)

  datatype Field = Field(before: string, key: string, mid: string, item: Item)

  // ------------------------------------------------------------- text, meaning

  function Signed(neg: bool, t: string): string { if neg then "-" + t else t }

  function ExponentText(x: Option<Exponent>): string
  {
    match x
    case None => ""
    case Some(e) => e.before + ([e.mark] + (e.gap + (e.sign + (e.lead + e.digits))))
  }

  function Text(d: Doc): string
    decreases d, 0
  {
    match d
    case DocWord(letters) => letters
    case DocInt(neg, digits) => Signed(neg, digits)
    case DocDecimal(neg, digits, gap, lead, fraction, exponent) =>
      Signed(neg, digits + (gap + ("." + (lead + (fraction + ExponentText(exponent))))))
    case DocMinus => "-"
    case DocNothing => ""
    case DocStr(raw) => "\"" + raw + "\""
    case DocArray(blank, items) => "[" + (if items == [] then blank else ItemsText(items)) + "]"
    case DocObject(blank, fields) => "{" + (if fields == [] then blank else FieldsText(fields)) + "}"
  }

  function ItemText(i: Item): string
    decreases i, 1
  {
    i.before + (Text(i.doc) + i.after)
  }

  function ItemsText(items: seq<Item>): string
    decreases items
  {
    if items == [] then ""
    else if |items| == 1 then ItemText(items[0])
    else ItemText(items[0]) + ("," + ItemsText(items[1..]))
  }

  function KeyText(f: Field): string
  {
    f.before + ("\"" + (f.key + ("\"" + (f.mid + ":"))))
  }

  function FieldText(f: Field): string
    decreases f, 1
  {
    KeyText(f) + ItemText(f.item)
  }

  function FieldsText(fields: seq<Field>): string
    decreases fields
  {
    if fields == [] then ""
    else if |fields| == 1 then FieldText(fields[0])
    else FieldText(fields[0]) + ("," + FieldsText(fields[1..]))
  }

  function DigitsValue(digits: string): nat
  {
    if digits == [] then 0
    else
      var last := digits[|digits| - 1];
      DigitsValue(digits[..|digits| - 1]) * 10 + (if IsDigit(last) then DigitValue(last) else 0)
  }

  predicate Blank(t: string) { forall i | 0 <= i < |t| :: IsSpace(t[i]) }

  predicate Digits(t: string) { forall i | 0 <= i < |t| :: IsDigit(t[i]) }

  /** Digits that make an `int`. */
  predicate Whole(digits: string) { digits != [] && Digits(digits) && DigitsValue(digits) <= MAX_INT }

  /** The texts of the grammar. */
  predicate WellFormed(d: Doc)
    decreases d
  {
    match d
    case DocWord(letters) => letters == "null" || letters == "true" || letters == "false"
    case DocInt(_, digits) => Whole(digits)
    case DocStr(raw) => EscapeClosed(raw)
    case DocArray(blank, items) => Blank(blank) && forall i | 0 <= i < |items| :: WellFormedItem(items[i])
    case DocObject(blank, fields) => Blank(blank) && forall i | 0 <= i < |fields| :: WellFormedField(fields[i])
    case _ => false
  }

  predicate WellFormedItem(i: Item)
  {
    Blank(i.before) && Blank(i.after) && WellFormed(i.doc)
  }

  predicate WellFormedField(f: Field)
  {
    Blank(f.before) && Blank(f.mid) && EscapeClosed(f.key) && WellFormedItem(f.item)
  }

  predicate LenientExponent(x: Option<Exponent>)
  {
    x.Some? ==>
      var e := x.value;
      && Blank(e.before) && (e.mark == 'e' || e.mark == 'E') && Blank(e.gap) && Blank(e.lead)
      && (e.sign == "+" || e.sign == "-" || (e.sign == "" && e.lead == ""))
      && Digits(e.digits) && DigitsValue(e.digits) < EXPONENT_LIMIT
  }

  /** The texts the parser takes. A word counts by its first letter and its length; an
      array of nothing but one value that is not there is an empty array. */
  predicate Lenient(d: Doc)
    decreases d
  {
    match d
    case DocWord(letters) =>
      letters != [] && if letters[0] == 'f' then |letters| == 5 else |letters| == 4 && (letters[0] == 'n' || letters[0] == 't')
    case DocInt(_, digits) => Whole(digits)
    case DocDecimal(_, digits, gap, lead, fraction, exponent) =>
      Whole(digits) && Blank(gap) && Blank(lead) && Digits(fraction) && LenientExponent(exponent)
    case DocStr(raw) => EscapeClosed(raw)
    case DocArray(blank, items) =>
      Blank(blank) && (forall i | 0 <= i < |items| :: LenientItem(items[i])) && !(|items| == 1 && items[0].doc.DocNothing?)
    case DocObject(blank, fields) => Blank(blank) && forall i | 0 <= i < |fields| :: LenientField(fields[i])
    case _ => true
  }

  predicate LenientItem(i: Item)
  {
    Blank(i.before) && Blank(i.after) && Lenient(i.doc)
  }

  predicate LenientField(f: Field)
  {
    Blank(f.before) && Blank(f.mid) && EscapeClosed(f.key) && LenientItem(f.item)
  }

  lemma {:induction false} WellFormedIsLenient(d: Doc)
    requires WellFormed(d)
    ensures Lenient(d) && !d.DocNothing?
    decreases d, 0
  {
    hide Whole, EscapeClosed, Blank;
    match d
    case DocArray(_, items) =>
      forall i | 0 <= i < |items| ensures LenientItem(items[i]) && !items[i].doc.DocNothing? {
        assert WellFormedItem(items[i]);
        ItemIsLenient(items[i]);
      }
    case DocObject(_, fields) =>
      forall i | 0 <= i < |fields| ensures LenientField(fields[i]) {
        assert WellFormedField(fields[i]);
        FieldIsLenient(fields[i]);
      }
    case _ =>
  }

  lemma {:induction false} ItemIsLenient(i: Item)
    requires WellFormedItem(i)
    ensures LenientItem(i) && !i.doc.DocNothing?
    decreases i, 1
  {
    WellFormedIsLenient(i.doc);
  }

  lemma {:induction false} FieldIsLenient(f: Field)
    requires WellFormedField(f)
    ensures LenientField(f)
    decreases f, 1
  {
    ItemIsLenient(f.item);
  }

  function Meaning(d: Doc): Value
    decreases d
  {
    match d
    case DocWord(letters) =>
      if letters != [] && letters[0] == 't' then Bool(true) else if letters != [] && letters[0] == 'f' then Bool(false) else Null
    case DocInt(neg, digits) => Int(if neg then 0 - DigitsValue(digits) else DigitsValue(digits))
    case DocDecimal(neg, digits, _, _, fraction, exponent) =>
      Decimal(Lexeme(neg, DigitsValue(digits), fraction, ExponentMeaning(exponent)))
    case DocMinus => Null
    case DocNothing => Null
    case DocStr(raw) => Str(raw)
    case DocArray(_, items) => Array(ItemsMeaning(items, []))
    case DocObject(_, fields) => Object(FieldsMeaning(fields, []))
  }

  function ExponentMeaning(x: Option<Exponent>): Option<(bool, int)>
  {
    match x case None => None case Some(e) => Some((e.sign == "-", DigitsValue(e.digits)))
  }

  function ItemsMeaning(items: seq<Item>, acc: seq<Value>): seq<Value>
    decreases items
  {
    if items == [] then acc else ItemsMeaning(items[1..], acc + [Meaning(items[0].doc)])
  }

  /** Later members overwrite earlier ones of the same key. */
  function FieldsMeaning(fields: seq<Field>, acc: seq<Member>): seq<Member>
    decreases fields
  {
    if fields == [] then acc
    else FieldsMeaning(fields[1..], Put(acc, fields[0].key, Meaning(fields[0].item.doc)))
  }

  // ---------------------------------------------------------------- positions

  /** Text `t` lies in memory `s` at `p`. */
  ghost predicate At(s: string, p: nat, t: string)
    decreases |t|
  {
    p + |t| <= |s| && (t == [] || (s[p] == t[0] && At(s, p + 1, t[1..])))
  }

  lemma {:induction false} AtSlice(s: string, p: nat, t: string)
    ensures At(s, p, t) <==> p + |t| <= |s| && s[p..p + |t|] == t
    decreases |t|
  {
    if t != [] && p + |t| <= |s| {
      AtSlice(s, p + 1, t[1..]);
      assert t == [t[0]] + t[1..];
      assert s[p..p + |t|] == [s[p]] + s[p + 1..p + |t|];
    }
  }

  lemma {:induction false} AtSplit(s: string, p: nat, a: string, b: string)
    requires At(s, p, a + b)
    ensures At(s, p, a) && At(s, p + |a|, b)
    decreases |a|
  {
    if a == [] {
      assert a + b == b;
    } else {
      assert (a + b)[1..] == a[1..] + b;
      AtSplit(s, p + 1, a[1..], b);
    }
  }

  lemma {:induction false} AtJoin(s: string, p: nat, a: string, b: string)
    requires At(s, p, a) && At(s, p + |a|, b)
    ensures At(s, p, a + b)
    decreases |a|
  {
    if a == [] {
      assert a + b == b;
    } else {
      assert (a + b)[1..] == a[1..] + b;
      AtJoin(s, p + 1, a[1..], b);
    }
  }

  lemma {:induction false} SkipBlank(s: string, p: nat, blank: string)
    requires At(s, p, blank) && Blank(blank)
    ensures SkipSpace(s, p) == SkipSpace(s, p + |blank|)
    decreases |blank|
  {
    if blank != [] {
      SkipBlank(s, p + 1, blank[1..]);
    }
  }

  lemma {:induction false} SkipTwice(s: string, p: nat)
    ensures SkipSpace(s, SkipSpace(s, p)) == SkipSpace(s, p)
    decreases |s| - p
  {
    if p < |s| && IsSpace(s[p]) { SkipTwice(s, p + 1); }
  }

  // ------------------------------------------------------------------ scalars

  lemma {:induction false} ClosedStringEnds(s: string, p: nat, raw: string)
    requires EscapeClosed(raw) && At(s, p, raw + "\"")
    ensures StringEnd(s, p) == p + |raw|
    decreases |raw|
  {
    if raw != [] {
      var step := if raw[0] == '\\' then 2 else 1;
      assert raw + "\"" == raw[..step] + (raw[step..] + "\"");
      AtSplit(s, p, raw[..step], raw[step..] + "\"");
      ClosedStringEnds(s, p + step, raw[step..]);
    }
  }

  lemma BlankThen(s: string, p: nat, blank: string, t: string)
    requires Blank(blank) && t != [] && !IsSpace(t[0]) && At(s, p, blank + t)
    ensures At(s, p + |blank|, t) && s[p + |blank|] == t[0]
    ensures SkipSpace(s, p) == p + |blank|
  {
    AtSplit(s, p, blank, t);
    SkipBlank(s, p, blank);
  }

  lemma BodyParses(s: string, p: nat, raw: string)
    requires EscapeClosed(raw) && At(s, p, raw + "\"")
    ensures StringEnd(s, p) == p + |raw| < |s| && s[p..p + |raw|] == raw
  {
    hide StringEnd, EscapeClosed;
    ClosedStringEnds(s, p, raw);
    AtSplit(s, p, raw, "\"");
    AtSlice(s, p, raw);
  }

  lemma StringParses(s: string, p: nat, blank: string, raw: string)
    requires Blank(blank) && EscapeClosed(raw) && At(s, p, blank + ("\"" + (raw + "\"")))
    ensures ParseString(s, p) == Ok(raw, p + |blank| + |raw| + 2)
  {
    hide StringEnd, EscapeClosed, SkipSpace, Blank;
    var body := raw + "\"";
    var quoted := "\"" + body;
    assert quoted[1..] == body;
    BlankThen(s, p, blank, quoted);
    BodyParses(s, p + |blank| + 1, raw);
  }

  lemma {:induction false} DigitsValueMonotone(done: string, rest: string)
    ensures DigitsValue(done) <= DigitsValue(done + rest)
    decreases |rest|
  {
    if rest == [] {
      assert done + rest == done;
    } else {
      DigitsValueMonotone(done, rest[..|rest| - 1]);
      assert (done + rest)[..|done + rest| - 1] == done + rest[..|rest| - 1];
    }
  }

  lemma {:induction false} DigitRunReads(s: string, p: nat, done: string, rest: string)
    requires forall i | 0 <= i < |rest| :: IsDigit(rest[i])
    requires DigitsValue(done + rest) <= MAX_INT
    requires At(s, p, rest) && (p + |rest| < |s| ==> !IsDigit(s[p + |rest|]))
    ensures DigitRun(s, p, DigitsValue(done)) == Some((DigitsValue(done + rest), p + |rest|))
    decreases |rest|
  {
    if rest == [] {
      assert done + rest == done;
    } else {
      var next := done + [rest[0]];
      assert next[..|next| - 1] == done;
      assert next + rest[1..] == done + rest;
      DigitsValueMonotone(next, rest[1..]);
      DigitRunReads(s, p + 1, next, rest[1..]);
    }
  }

  /** What may follow digits: no digit, and past blanks not the end of the text. */
  ghost predicate EndsDigits(s: string, e: nat)
  {
    (e < |s| ==> !IsDigit(s[e])) && SkipSpace(s, e) < |s| && s[SkipSpace(s, e)] != '\0'
  }

  lemma IntegerParses(s: string, p: nat, digits: string)
    requires Whole(digits) && At(s, p, digits) && EndsDigits(s, p + |digits|)
    ensures ParseInteger(s, p) == Ok(DigitsValue(digits), SkipSpace(s, p + |digits|))
  {
    assert [] + digits == digits;
    DigitRunReads(s, p, [], digits);
  }

  lemma NoValue()
    ensures DigitsValue("") == 0
  {
  }

  lemma NoDigits(s: string, p: nat)
    requires SkipSpace(s, p) < |s| && !IsDigit(s[SkipSpace(s, p)]) && s[SkipSpace(s, p)] != '\0'
    ensures ParseInteger(s, p) == Ok(0, SkipSpace(s, p))
  {
    SkipTwice(s, p);
  }

  lemma IntegerSkips(s: string, p: nat)
    ensures ParseInteger(s, SkipSpace(s, p)) == ParseInteger(s, p)
  {
    hide SkipSpace;
    SkipTwice(s, p);
  }

  /** Blanks may come first, and there may be no digit at all. */
  lemma LooseIntegerParses(s: string, p: nat, lead: string, digits: string)
    requires Blank(lead) && Digits(digits) && DigitsValue(digits) <= MAX_INT && At(s, p, lead + digits)
    requires var e := p + |lead| + |digits|; EndsDigits(s, e) && (digits == "" ==> !IsDigit(s[SkipSpace(s, e)]))
    ensures ParseInteger(s, p) == Ok(DigitsValue(digits), SkipSpace(s, p + |lead| + |digits|))
  {
    hide SkipSpace, ParseInteger, DigitsValue, At, Blank, Digits;
    AtSplit(s, p, lead, digits);
    SkipBlank(s, p, lead);
    IntegerSkips(s, p);
    if digits == "" {
      NoValue();
      NoDigits(s, p);
    } else {
      IntegerParses(s, p + |lead|, digits);
      IntegerSkips(s, p + |lead|);
    }
  }

  lemma {:induction false} FractionReads(s: string, p: nat, digits: string)
    requires Digits(digits) && At(s, p, digits) && (p + |digits| < |s| ==> !IsDigit(s[p + |digits|]))
    ensures FractionEnd(s, p) == p + |digits|
    decreases |digits|
  {
    if digits != [] { FractionReads(s, p + 1, digits[1..]); }
  }

  /** The digits behind a point, blanks around them or none at all. */
  lemma FractionParses(s: string, p: nat, lead: string, digits: string)
    requires Blank(lead) && Digits(digits) && At(s, p, lead + digits)
    requires var e := p + |lead| + |digits|; var q := SkipSpace(s, e);
      (e < |s| ==> !IsDigit(s[e])) && (digits == "" && q < |s| ==> !IsDigit(s[q]))
    ensures var b := SkipSpace(s, p); var e := FractionEnd(s, b);
      e <= |s| && s[b..e] == digits && SkipSpace(s, e) == SkipSpace(s, p + |lead| + |digits|)
  {
    AtSplit(s, p, lead, digits);
    SkipBlank(s, p, lead);
    var b := SkipSpace(s, p);
    if digits == "" {
      SkipTwice(s, p);
      FractionReads(s, b, "");
    } else {
      FractionReads(s, b, digits);
      AtSlice(s, b, digits);
    }
  }

  /** What may follow an exponent. */
  ghost predicate EndsExponent(s: string, e: nat, x: Exponent)
  {
    && EndsDigits(s, e)
    && var c := s[SkipSpace(s, e)];
       x.digits == "" ==> !IsDigit(c) && (x.sign == "" ==> c != '+' && c != '-')
  }

  lemma NowhereAt(s: string, p: nat)
    requires p <= |s|
    ensures At(s, p, "")
  {
  }

  lemma AtFirst(s: string, p: nat, a: string, b: string)
    requires At(s, p, a + b) && a != []
    ensures p < |s| && s[p] == a[0]
  {
  }

  lemma AfterFraction(s: string, e: nat, before: string, rest: string)
    requires Blank(before) && At(s, e, before + rest) && rest != [] && !IsDigit(rest[0])
    ensures e < |s| && !IsDigit(s[e])
  {
  }

  lemma ExponentParses(s: string, p: nat, x: Exponent, neg: bool, whole: nat, fraction: string)
    requires LenientExponent(Some(x)) && At(s, p, [x.mark] + (x.gap + (x.sign + (x.lead + x.digits))))
    requires EndsExponent(s, p + 1 + |x.gap| + |x.sign| + |x.lead| + |x.digits|, x)
    ensures var e := p + 1 + |x.gap| + |x.sign| + |x.lead| + |x.digits|;
      ParseExponent(s, p, neg, whole, fraction)
        == Ok(Decimal(Lexeme(neg, whole, fraction, ExponentMeaning(Some(x)))), SkipSpace(s, e))
  {
    hide ParseInteger, SkipSpace, DigitsValue, At;
    var rest, number := x.sign + (x.lead + x.digits), x.lead + x.digits;
    var b := p + 1 + |x.gap|;
    AtSplit(s, p, [x.mark], x.gap + rest);
    AtSplit(s, p + 1, x.gap, rest);
    AtSplit(s, b, x.sign, number);
    if x.sign != "" {
      BlankThen(s, p + 1, x.gap, rest);
      LooseIntegerParses(s, b + 1, x.lead, x.digits);
    } else {
      assert number == x.digits;
      SkipBlank(s, p + 1, x.gap);
      if x.digits == "" {
        SkipTwice(s, b);
        assert At(s, SkipSpace(s, b), "" + "") by { NowhereAt(s, SkipSpace(s, b)); }
        LooseIntegerParses(s, SkipSpace(s, b), "", "");
      } else {
        BlankThen(s, p + 1, x.gap, x.digits);
        LooseIntegerParses(s, b, "", x.digits);
      }
    }
  }

  /** Characters that begin a value. A point does not. */
  predicate Starts(c: char)
  {
    c == '{' || c == '[' || c == '\"' || c == 'n' || c == 't' || c == 'f' || c == '-' || IsDigit(c)
  }

  /** What may follow a text at `e`, for the parser to stop there. */
  ghost predicate Follows(s: string, e: nat, d: Doc)
  {
    match d
    case DocInt(_, _) => EndsDigits(s, e) && s[SkipSpace(s, e)] != '.'
    case DocDecimal(_, _, _, _, fraction, exponent) =>
      && EndsDigits(s, e)
      && (match exponent
          case Some(x) => EndsExponent(s, e, x)
          case None =>
            var c := s[SkipSpace(s, e)]; c != 'e' && c != 'E' && (fraction == "" ==> !IsDigit(c)))
    case DocMinus => e < |s| && !IsDigit(s[e])
    case DocNothing => SkipSpace(s, e) < |s| && !Starts(s[SkipSpace(s, e)])
    case _ => true
  }

  /** Where the parser stops after a text that ends at `e`: numbers, and the search for
      a value that is not there, swallow the blanks behind. */
  function Stop(s: string, e: nat, d: Doc): nat
  {
    if d.DocInt? || d.DocDecimal? || d.DocNothing? then SkipSpace(s, e) else e
  }

  /** The point of a decimal, and what is behind it. */
  lemma DecimalParses(s: string, p: nat, d: Doc, neg: bool, whole: nat)
    requires d.DocDecimal? && Lenient(d)
    requires At(s, p, "." + (d.lead + (d.fraction + ExponentText(d.exponent))))
    requires Follows(s, p + 1 + |d.lead| + |d.fraction| + |ExponentText(d.exponent)|, d)
    ensures p < |s| && ParseDecimal(s, p, neg, whole) ==
      Ok(Decimal(Lexeme(neg, whole, d.fraction, ExponentMeaning(d.exponent))),
         SkipSpace(s, p + 1 + |d.lead| + |d.fraction| + |ExponentText(d.exponent)|))
  {
    hide ParseExponent, SkipSpace, DigitsValue, At, FractionEnd;
    var tail := ExponentText(d.exponent);
    AtSplit(s, p, ".", d.lead + (d.fraction + tail));
    assert d.lead + (d.fraction + tail) == (d.lead + d.fraction) + tail;
    AtSplit(s, p + 1, d.lead + d.fraction, tail);
    var e := p + 1 + |d.lead| + |d.fraction|;
    AtFirst(s, p, ".", d.lead + (d.fraction + tail));
    if d.exponent.Some? {
      var x := d.exponent.value;
      var rest := [x.mark] + (x.gap + (x.sign + (x.lead + x.digits)));
      assert rest[0] == x.mark;
      BlankThen(s, e, x.before, rest);
      AfterFraction(s, e, x.before, rest);
      FractionParses(s, p + 1, d.lead, d.fraction);
      ExponentParses(s, e + |x.before|, x, neg, whole, d.fraction);
    } else {
      FractionParses(s, p + 1, d.lead, d.fraction);
    }
  }

  // ------------------------------------------------------------------- values

  ghost predicate Delimiter(s: string, e: nat)
  {
    e < |s| && (s[e] == ',' || s[e] == ']' || s[e] == '}')
  }

  lemma DelimitedFollows(s: string, e: nat, d: Doc)
    requires e < |s| && !IsDigit(s[e]) && Delimiter(s, SkipSpace(s, e))
    ensures Follows(s, e, d)
  {
  }

  lemma IntParses(s: string, p: nat, d: Doc)
    requires d.DocInt? && Lenient(d) && At(s, p, Text(d)) && Follows(s, p + |Text(d)|, d)
    ensures ParseValue(s, p) == Ok(Meaning(d), SkipSpace(s, p + |Text(d)|))
  {
    hide DigitsValue, ParseInteger, ParseArray, ParseObject, ParseString, ParseDecimal;
    if d.neg {
      assert Text(d)[1..] == d.digits;
      IntegerParses(s, p + 1, d.digits);
    } else {
      IntegerParses(s, p, d.digits);
    }
  }

  lemma GapEndsDigits(s: string, e: nat, gap: string, rest: string)
    requires Blank(gap) && At(s, e, gap + ("." + rest))
    ensures EndsDigits(s, e) && SkipSpace(s, e) == e + |gap| && s[e + |gap|] == '.' && At(s, e + |gap|, "." + rest)
  {
    BlankThen(s, e, gap, "." + rest);
  }

  lemma SignedDecimalParses(s: string, p: nat, d: Doc)
    requires d.DocDecimal? && Lenient(d) && At(s, p, Text(d)) && Follows(s, p + |Text(d)|, d)
    ensures p < |s| && ParseNumber(s, p) == Ok(Meaning(d), SkipSpace(s, p + |Text(d)|))
    ensures s[p] == '-' || IsDigit(s[p])
  {
    hide DigitsValue, ParseInteger, ParseDecimal, Follows, ExponentText, ExponentMeaning, EndsDigits;
    var behind := d.lead + (d.fraction + ExponentText(d.exponent));
    var t := d.digits + (d.gap + ("." + behind));
    var q := if d.neg then p + 1 else p;
    if d.neg { assert Text(d)[1..] == t; }
    AtSplit(s, q, d.digits, d.gap + ("." + behind));
    var e := q + |d.digits|;
    GapEndsDigits(s, e, d.gap, behind);
    IntegerParses(s, q, d.digits);
    DecimalParses(s, e + |d.gap|, d, d.neg, DigitsValue(d.digits));
  }

  /** Main result: wherever a text lies in memory, the parser reads its meaning and
      stops behind it, as long as what follows is not read as part of it. */
  lemma {:induction false} ValueParses(s: string, p: nat, d: Doc)
    requires Lenient(d) && At(s, p, Text(d)) && Follows(s, p + |Text(d)|, d)
    ensures ParseValue(s, p) == Ok(Meaning(d), Stop(s, p + |Text(d)|, d))
    decreases d, 1
  {
    hide ParseArray, ParseObject, ParseString, ParseNumber, EscapeClosed, DigitsValue, EndsDigits, EndsExponent;
    match d
    case DocWord(_) =>
    case DocInt(_, _) => IntParses(s, p, d);
    case DocDecimal(_, _, _, _, _, _) => SignedDecimalParses(s, p, d);
    case DocMinus => MinusParses(s, p);
    case DocNothing => NothingParses(s, p);
    case DocStr(raw) =>
      assert Text(d) == "" + ("\"" + (raw + "\""));
      StringParses(s, p, "", raw);
    case DocArray(_, _) => ArrayParses(s, p, d);
    case DocObject(_, _) => ObjectParses(s, p, d);
  }

  lemma NothingParses(s: string, p: nat)
    requires SkipSpace(s, p) < |s| && !Starts(s[SkipSpace(s, p)])
    ensures ParseValue(s, p) == Ok(Null, SkipSpace(s, p))
  {
    hide SkipSpace, ParseDecimal, ParseInteger;
  }

  lemma MinusParses(s: string, p: nat)
    requires At(s, p, "-") && p + 1 < |s| && !IsDigit(s[p + 1])
    ensures p < |s| && ParseNumber(s, p) == Ok(Null, p + 1) && s[p] == '-'
  {
  }

  lemma EmptyArrayParses(s: string, p: nat, blank: string)
    requires Blank(blank) && At(s, p, "[" + (blank + "]"))
    ensures p < |s| && ParseArray(s, p) == Ok(Array([]), p + |blank| + 2)
  {
    AtSplit(s, p, "[", blank + "]");
    BlankThen(s, p + 1, blank, "]");
  }

  lemma {:induction false} ArrayParses(s: string, p: nat, d: Doc)
    requires d.DocArray? && Lenient(d) && At(s, p, Text(d))
    ensures p < |s| && ParseArray(s, p) == Ok(Meaning(d), p + |Text(d)|)
    decreases d, 0
  {
    hide ArrayLoop, ItemsText, ParseObject, DigitsValue, EscapeClosed, SkipSpace;
    if d.items == [] {
      assert Text(d) == "[" + (d.blank + "]");
      EmptyArrayParses(s, p, d.blank);
    } else {
      var body := ItemsText(d.items) + "]";
      assert Text(d)[1..] == body;
      ItemsStart(s, p + 1, d.items);
      ArrayLoopSkips(s, p + 1);
      ItemsParse(s, p + 1, d.items, []);
    }
  }

  /** The loop skips blanks again before each element. */
  lemma ArrayLoopSkips(s: string, p: nat)
    ensures ArrayLoop(s, SkipSpace(s, p), []) == ArrayLoop(s, p, [])
  {
    hide ParseValue, SkipSpace;
    SkipTwice(s, p);
    assert Element(s, SkipSpace(s, p)) == Element(s, p);
  }

  lemma TextStarts(d: Doc)
    requires Lenient(d) && !d.DocNothing?
    ensures Text(d) != [] && !IsSpace(Text(d)[0]) && Text(d)[0] != ']'
  {
  }

  /** The parser skips blanks before it looks for an empty container. */
  lemma ItemsStart(s: string, p: nat, items: seq<Item>)
    requires items != [] && LenientItem(items[0]) && At(s, p, ItemsText(items) + "]")
    requires !(|items| == 1 && items[0].doc.DocNothing?)
    ensures SkipSpace(s, p) < |s| && s[SkipSpace(s, p)] != ']'
  {
    hide Text, Lenient, SkipSpace, At, ItemsText, ItemText;
    var d := items[0].doc;
    ItemsHead(items);
    if d.DocNothing? { NothingText(d); } else { TextStarts(d); }
    SkipsTo(s, p, items[0].before, Text(d), items[0].after, Behind(items));
  }

  /** Past blanks lies the first character that is none. */
  lemma SkipsTo(s: string, p: nat, before: string, t: string, after: string, more: string)
    requires Blank(before) && Blank(after) && At(s, p, before + (t + (after + more)))
    requires more != [] && !IsSpace(more[0]) && (t != "" ==> !IsSpace(t[0]))
    ensures var q := SkipSpace(s, p); q < |s| && s[q] == if t == "" then more[0] else t[0]
  {
    hide SkipSpace, At;
    if t == "" {
      assert t + (after + more) == after + more;
      AtSplit(s, p, before, after + more);
      SkipBlank(s, p, before);
      BlankThen(s, p + |before|, after, more);
    } else {
      BlankThen(s, p, before, t + (after + more));
    }
  }

  /** What is behind the first item, up to the bracket. */
  function Behind(items: seq<Item>): (t: string)
    requires items != []
    ensures t != [] && t[0] == if |items| == 1 then ']' else ','
  {
    if |items| == 1 then "]" else ("," + ItemsText(items[1..])) + "]"
  }

  lemma ItemsHead(items: seq<Item>)
    requires items != []
    ensures ItemsText(items) + "]" == items[0].before + (Text(items[0].doc) + (items[0].after + Behind(items)))
  {
    hide Text;
    var i := items[0];
    assert ItemsText(items) + "]" == ItemText(i) + Behind(items);
    Regroup(i.before, Text(i.doc), i.after, Behind(items));
  }

  lemma Regroup(a: string, b: string, c: string, d: string)
    ensures (a + (b + c)) + d == a + (b + (c + d))
  {
  }

  lemma NothingText(d: Doc)
    requires d.DocNothing?
    ensures Text(d) == ""
  {
  }

  lemma ItemLayout(s: string, p: nat, i: Item)
    requires LenientItem(i) && At(s, p, ItemText(i)) && Delimiter(s, p + |ItemText(i)|)
    ensures var b := p + |i.before|; var e := b + |Text(i.doc)|;
      && At(s, b, Text(i.doc)) && SkipSpace(s, p) == SkipSpace(s, b) && (!i.doc.DocNothing? ==> SkipSpace(s, p) == b)
      && SkipSpace(s, e) == p + |ItemText(i)| && e < |s| && !IsDigit(s[e])
  {
    hide Text, Lenient;
    var b := p + |i.before|;
    AtSplit(s, p, i.before, Text(i.doc) + i.after);
    SkipBlank(s, p, i.before);
    if !i.doc.DocNothing? {
      TextStarts(i.doc);
      BlankThen(s, p, i.before, Text(i.doc) + i.after);
    }
    AtSplit(s, b, Text(i.doc), i.after);
    var e := b + |Text(i.doc)|;
    SkipBlank(s, e, i.after);
  }

  lemma {:induction false} ItemParses(s: string, p: nat, i: Item)
    requires LenientItem(i) && At(s, p, ItemText(i)) && Delimiter(s, p + |ItemText(i)|)
    ensures Element(s, p) == Ok(Meaning(i.doc), p + |ItemText(i)|)
    decreases i, 2
  {
    hide ParseValue, Text, Lenient, Meaning, At, Follows;
    ItemLayout(s, p, i);
    var b := p + |i.before|;
    var e := b + |Text(i.doc)|;
    DelimitedFollows(s, e, i.doc);
    ValueParses(s, b, i.doc);
    ValueSkips(s, b);
    SkipTwice(s, e);
  }

  lemma ValueSkips(s: string, p: nat)
    ensures ParseValue(s, SkipSpace(s, p)) == ParseValue(s, p)
  {
    SkipTwice(s, p);
    hide ParseNumber, ParseArray, ParseObject, ParseString;
  }

  lemma ItemsLayout(s: string, p: nat, items: seq<Item>)
    requires items != [] && At(s, p, ItemsText(items) + "]")
    ensures At(s, p, ItemText(items[0])) && p + |ItemText(items[0])| < |s|
    ensures var e := p + |ItemText(items[0])|;
      if |items| == 1 then s[e] == ']' && e == p + |ItemsText(items)|
      else && s[e] == ',' && At(s, e + 1, ItemsText(items[1..]) + "]")
           && e + 1 + |ItemsText(items[1..])| == p + |ItemsText(items)|
  {
    hide ItemText;
    var i := ItemText(items[0]);
    if |items| == 1 {
      AtSplit(s, p, i, "]");
    } else {
      var more := ItemsText(items[1..]) + "]";
      assert ItemsText(items) + "]" == i + ("," + more);
      AtSplit(s, p, i, "," + more);
      AtSplit(s, p + |i|, ",", more);
    }
  }

  lemma {:induction false} ItemsParse(s: string, p: nat, items: seq<Item>, acc: seq<Value>)
    requires items != [] && forall i | 0 <= i < |items| :: LenientItem(items[i])
    requires At(s, p, ItemsText(items) + "]")
    ensures ArrayLoop(s, p, acc) == Ok(Array(ItemsMeaning(items, acc)), p + |ItemsText(items)| + 1)
    decreases items
  {
    hide Element, ItemText, LenientItem, Meaning, At;
    ItemsLayout(s, p, items);
    if |items| > 1 {
      ItemsParse(s, p + |ItemText(items[0])| + 1, items[1..], acc + [Meaning(items[0].doc)]);
    }
    ItemParses(s, p, items[0]);
  }

  lemma EmptyObjectParses(s: string, p: nat, blank: string)
    requires Blank(blank) && At(s, p, "{" + (blank + "}"))
    ensures p < |s| && ParseObject(s, p) == Ok(Object([]), p + |blank| + 2)
  {
    AtSplit(s, p, "{", blank + "}");
    BlankThen(s, p + 1, blank, "}");
  }

  lemma {:induction false} ObjectParses(s: string, p: nat, d: Doc)
    requires d.DocObject? && Lenient(d) && At(s, p, Text(d))
    ensures p < |s| && ParseObject(s, p) == Ok(Meaning(d), p + |Text(d)|)
    decreases d, 0
  {
    hide ObjectLoop, FieldsText, ParseArray, DigitsValue, EscapeClosed, SkipSpace;
    if d.fields == [] {
      assert Text(d) == "{" + (d.blank + "}");
      EmptyObjectParses(s, p, d.blank);
    } else {
      var body := FieldsText(d.fields) + "}";
      assert Text(d)[1..] == body;
      FieldsStart(s, p + 1, d.fields, "}");
      ObjectLoopSkips(s, p + 1);
      FieldsParse(s, p + 1, d.fields, []);
    }
  }

  /** The loop skips blanks again before each element. */
  lemma ObjectLoopSkips(s: string, p: nat)
    ensures ObjectLoop(s, SkipSpace(s, p), []) == ObjectLoop(s, p, [])
  {
    hide ParseString, Element, SkipSpace;
    SkipTwice(s, p);
    assert Entry(s, SkipSpace(s, p)) == Entry(s, p);
  }

  lemma FieldsStart(s: string, p: nat, fields: seq<Field>, close: string)
    requires fields != [] && LenientField(fields[0]) && At(s, p, FieldsText(fields) + close)
    ensures SkipSpace(s, p) < |s| && s[SkipSpace(s, p)] == '\"'
  {
    hide ItemText, EscapeClosed;
    var f := fields[0];
    var tail := f.key + ("\"" + (f.mid + ":"));
    var rest := ItemText(f.item) + (if |fields| == 1 then close else ("," + FieldsText(fields[1..])) + close);
    assert FieldsText(fields) + close == f.before + ("\"" + (tail + rest));
    AtSplit(s, p, f.before, "\"" + (tail + rest));
    SkipBlank(s, p, f.before);
  }

  lemma KeyParses(s: string, p: nat, f: Field)
    requires Blank(f.before) && Blank(f.mid) && EscapeClosed(f.key) && At(s, p, KeyText(f))
    ensures ParseKey(s, p) == Ok(f.key, p + |KeyText(f)|)
  {
    hide ParseString, SkipSpace, EscapeClosed;
    var quoted := "" + ("\"" + (f.key + "\""));
    var tail := f.mid + ":";
    var b := p + |f.before|;
    assert KeyText(f) == f.before + (quoted + tail);
    BlankThen(s, p, f.before, quoted + tail);
    AtSplit(s, b, quoted, tail);
    StringParses(s, b, "", f.key);
    BlankThen(s, b + |quoted|, f.mid, ":");
  }

  lemma {:induction false} FieldParses(s: string, p: nat, f: Field)
    requires LenientField(f) && At(s, p, FieldText(f)) && Delimiter(s, p + |FieldText(f)|)
    ensures Entry(s, p) == Ok(Member(f.key, Meaning(f.item.doc)), p + |FieldText(f)|)
    decreases f, 1
  {
    hide ParseKey, Element, KeyText, ItemText, LenientItem, Meaning, At;
    AtSplit(s, p, KeyText(f), ItemText(f.item));
    KeyParses(s, p, f);
    ItemParses(s, p + |KeyText(f)|, f.item);
  }

  lemma FieldsLayout(s: string, p: nat, fields: seq<Field>)
    requires fields != [] && At(s, p, FieldsText(fields) + "}")
    ensures At(s, p, FieldText(fields[0])) && p + |FieldText(fields[0])| < |s|
    ensures var e := p + |FieldText(fields[0])|;
      if |fields| == 1 then s[e] == '}' && e == p + |FieldsText(fields)|
      else && s[e] == ',' && At(s, e + 1, FieldsText(fields[1..]) + "}")
           && e + 1 + |FieldsText(fields[1..])| == p + |FieldsText(fields)|
  {
    hide FieldText;
    var f := FieldText(fields[0]);
    if |fields| == 1 {
      AtSplit(s, p, f, "}");
    } else {
      var more := FieldsText(fields[1..]) + "}";
      assert FieldsText(fields) + "}" == f + ("," + more);
      AtSplit(s, p, f, "," + more);
      AtSplit(s, p + |f|, ",", more);
    }
  }

  lemma {:induction false} FieldsParse(s: string, p: nat, fields: seq<Field>, acc: seq<Member>)
    requires fields != [] && forall i | 0 <= i < |fields| :: LenientField(fields[i])
    requires At(s, p, FieldsText(fields) + "}")
    ensures ObjectLoop(s, p, acc) == Ok(Object(FieldsMeaning(fields, acc)), p + |FieldsText(fields)| + 1)
    decreases fields
  {
    hide Entry, FieldText, LenientField, Meaning, At, Put;
    var f := fields[0];
    FieldsLayout(s, p, fields);
    if |fields| > 1 {
      FieldsParse(s, p + |FieldText(f)| + 1, fields[1..], Put(acc, f.key, Meaning(f.item.doc)));
    }
    FieldParses(s, p, f);
  }
}

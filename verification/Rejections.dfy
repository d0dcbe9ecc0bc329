/** What the parser refuses: exactly which arrays and objects make it throw, at any
    depth; that it throws for good, whatever follows in memory; and what it does with
    numbers that are cut off or too large. */
module Rejections {
  import opened Json
  import opened Parser
  import opened NormalForm
  import opened Grammar
  import opened Language
  import opened Locality

  // ----------------------------------------------------------- one value in a list

  /** A value with its blanks lies at `p`, and `x` is the first character behind. */
  ghost predicate ItemEnds(s: string, p: nat, i: Item, x: nat)
  {
    && LenientItem(i) && At(s, p, ItemText(i)) && x == p + |ItemText(i)| < |s| && !IsSpace(s[x])
    && Follows(s, p + |i.before| + |Text(i.doc)|, i.doc)
  }

  lemma ItemEndsParses(s: string, p: nat, i: Item, x: nat)
    requires ItemEnds(s, p, i, x)
    ensures Element(s, p) == Ok(Meaning(i.doc), x)
  {
    hide ParseValue, Text, Lenient, Meaning, At, Follows, SkipSpace, Blank;
    var b := p + |i.before|;
    var e := b + |Text(i.doc)|;
    AtSplit(s, p, i.before, Text(i.doc) + i.after);
    AtSplit(s, b, Text(i.doc), i.after);
    SkipBlank(s, p, i.before);
    SkipBlank(s, e, i.after);
    NoSkip(s, x);
    ValueParses(s, b, i.doc);
    ValueSkips(s, b);
    SkipTwice(s, e);
  }

  lemma NoSkip(s: string, p: nat)
    requires p < |s| && !IsSpace(s[p])
    ensures SkipSpace(s, p) == p
  {
  }

  lemma ItemEndsRead(s: string, p: nat) returns (i: Item)
    requires p <= |s| && Element(s, p).Ok?
    ensures ItemEnds(s, p, i, Element(s, p).p) && Element(s, p).v == Meaning(i.doc)
  {
    hide Element, SkipSpace, At, Lenient, Text, Meaning, Follows, Blank;
    i := ItemRead(s, p);
  }

  lemma ElementThrows(s: string, p: nat)
    ensures Element(s, p) == Throw <==> ParseValue(s, p) == Throw
  {
    hide ParseValue, SkipSpace;
    ValueSkips(s, p);
  }

  // ------------------------------------------------------------------- arrays

  /** Items, each with a comma behind it. */
  function Led(items: seq<Item>): string
  {
    if items == [] then "" else ItemText(items[0]) + ("," + Led(items[1..]))
  }

  /** A value with its blanks, followed by neither a comma nor the closing bracket. */
  ghost predicate Unseparated(s: string, p: nat, i: Item, x: nat, close: char)
  {
    ItemEnds(s, p, i, x) && s[x] != ',' && s[x] != close
  }

  /** Behind some items and their commas lies a value that throws, or one that is
      followed by neither a comma nor the bracket. */
  ghost predicate ArrayBreaks(s: string, p: nat, items: seq<Item>)
  {
    var b := p + |Led(items)|;
    && (forall i | 0 <= i < |items| :: LenientItem(items[i])) && At(s, p, Led(items))
    && (ParseValue(s, b) == Throw || exists i, x: nat :: Unseparated(s, b, i, x, ']'))
  }

  /** The loop past its first item. */
  lemma LedHead(s: string, p: nat, items: seq<Item>)
    requires items != [] && At(s, p, Led(items)) && LenientItem(items[0])
    ensures var t := p + |ItemText(items[0])|;
      && t < |s| && s[t] == ',' && At(s, t + 1, Led(items[1..])) && Element(s, p) == Ok(Meaning(items[0].doc), t)
      && t + 1 + |Led(items[1..])| == p + |Led(items)|
  {
    hide Element, ItemText, LenientItem, Meaning, At;
    var i := items[0];
    AtSplit(s, p, ItemText(i), "," + Led(items[1..]));
    var t := p + |ItemText(i)|;
    AtSplit(s, t, ",", Led(items[1..]));
    AtFirst(s, t, ",", Led(items[1..]));
    ItemParses(s, p, i);
  }

  lemma {:induction false} ArrayLoopBreaks(s: string, p: nat, items: seq<Item>, acc: seq<Value>)
    requires ArrayBreaks(s, p, items)
    ensures ArrayLoop(s, p, acc) == Throw
    decreases |items|
  {
    hide Element, ItemText, LenientItem, Meaning, At, ParseValue, ItemEnds;
    if items == [] {
      ElementThrows(s, p);
      if ParseValue(s, p) != Throw {
        var i, x: nat :| Unseparated(s, p, i, x, ']');
        ItemEndsParses(s, p, i, x);
      }
    } else {
      LedHead(s, p, items);
      var t := p + |ItemText(items[0])|;
      ArrayLoopBreaks(s, t + 1, items[1..], acc + [Meaning(items[0].doc)]);
    }
  }

  lemma {:induction false} ArrayLoopBroken(s: string, p: nat, acc: seq<Value>) returns (items: seq<Item>)
    requires p <= |s| && ArrayLoop(s, p, acc) == Throw
    ensures ArrayBreaks(s, p, items)
    decreases |s| - p
  {
    hide Element, ItemText, LenientItem, Meaning, At, ParseValue, ItemEnds;
    if Element(s, p) == Throw {
      items := [];
      ElementThrows(s, p);
      NowhereAt(s, p);
    } else {
      var i := ItemEndsRead(s, p);
      var t := Element(s, p).p;
      ItemEndsAt(s, p, i, t);
      if s[t] == ',' {
        var rest := ArrayLoopBroken(s, t + 1, acc + [Element(s, p).v]);
        items := [i] + rest;
        assert items[1..] == rest;
        AtOpen(s, t, Led(rest));
        AtJoin(s, p, ItemText(i), "," + Led(rest));
        assert p + |Led(items)| == t + 1 + |Led(rest)|;
      } else {
        items := [];
        NowhereAt(s, p);
        assert Unseparated(s, p, i, t, ']');
      }
    }
  }

  lemma ItemEndsAt(s: string, p: nat, i: Item, x: nat)
    requires ItemEnds(s, p, i, x)
    ensures LenientItem(i) && At(s, p, ItemText(i)) && x == p + |ItemText(i)| < |s|
  {
  }

  /** What an array that breaks begins with. */
  lemma BreaksInside(s: string, p: nat, items: seq<Item>)
    requires ArrayBreaks(s, p, items) && p <= |s|
    ensures SkipSpace(s, p) < |s| && s[SkipSpace(s, p)] != ']'
  {
    hide SkipSpace, Text, Lenient, At;
    if items != [] {
      LedHead(s, p, items);
      AtSplit(s, p, ItemText(items[0]), "," + Led(items[1..]));
      hide ItemText;
      FirstIsNoBracket(s, p, items[0]);
    } else if ParseValue(s, p) == Throw {
      BracketIsNull(s, p);
    } else {
      var i, x: nat :| Unseparated(s, p, i, x, ']');
      FirstIsNoBracket(s, p, i);
    }
  }

  lemma BracketIsNull(s: string, p: nat)
    requires ParseValue(s, p) == Throw
    ensures SkipSpace(s, p) < |s| && s[SkipSpace(s, p)] != ']'
  {
  }

  lemma FirstIsNoBracket(s: string, p: nat, i: Item)
    requires LenientItem(i) && At(s, p, ItemText(i)) && p + |ItemText(i)| < |s|
    requires var c := s[p + |ItemText(i)|]; c != ']' && !IsSpace(c)
    ensures SkipSpace(s, p) < |s| && s[SkipSpace(s, p)] != ']'
  {
    hide SkipSpace, Text, Lenient, At;
    var t := p + |ItemText(i)|;
    if i.doc.DocNothing? { NothingText(i.doc); } else { TextStarts(i.doc); }
    CloseAt(s, p, ItemText(i), s[t]);
    assert ItemText(i) + [s[t]] == i.before + (Text(i.doc) + (i.after + [s[t]]));
    SkipsTo(s, p, i.before, Text(i.doc), i.after, [s[t]]);
  }

  /** Exactly when an array makes the parser throw. */
  lemma ArrayThrowsExactly(s: string, p: nat)
    requires p < |s| && s[p] == '['
    ensures var inside := p + 1; ParseArray(s, p) == Throw <==> exists items :: ArrayBreaks(s, inside, items)
  {
    hide SkipSpace, ArrayLoop, ArrayBreaks;
    var inside := p + 1;
    ArrayLoopSkips(s, inside);
    if ParseArray(s, p) == Throw {
      var items := ArrayLoopBroken(s, inside, []);
    }
    forall items | ArrayBreaks(s, inside, items) ensures ParseArray(s, p) == Throw {
      BreaksInside(s, inside, items);
      ArrayLoopBreaks(s, inside, items, []);
    }
  }

  // ------------------------------------------------------------------- objects

  /** Members, each with a comma behind it. */
  function LedFields(fields: seq<Field>): string
  {
    if fields == [] then "" else FieldText(fields[0]) + ("," + LedFields(fields[1..]))
  }

  /** A string with something else than a colon behind it. */
  ghost predicate Colonless(s: string, q: nat, raw: string)
  {
    && EscapeClosed(raw) && At(s, q, "\"" + (raw + "\""))
    && var c := SkipSpace(s, q + |raw| + 2); c < |s| && s[c] != ':'
  }

  /** Where a key should be there is none, or one without its colon. */
  ghost predicate KeyBreaks(s: string, p: nat)
  {
    var q := SkipSpace(s, p);
    q < |s| && (s[q] != '\"' || exists raw :: Colonless(s, q, raw))
  }

  lemma KeyThrowsExactly(s: string, p: nat)
    requires p <= |s|
    ensures ParseKey(s, p) == Throw <==> KeyBreaks(s, p)
  {
    hide SkipSpace, At, EscapeClosed;
    var q := SkipSpace(s, p);
    SkipTwice(s, p);
    if q < |s| && s[q] == '\"' {
      NoBlank();
      if ParseString(s, q).Ok? {
        var raw := StringRead(s, q);
        if ParseKey(s, p) == Throw { assert Colonless(s, q, raw); }
      }
      forall raw | Colonless(s, q, raw) ensures ParseKey(s, p) == Throw {
        assert "" + ("\"" + (raw + "\"")) == "\"" + (raw + "\"");
        StringParses(s, q, "", raw);
      }
    }
  }

  /** A key and its colon lie at `p`; what is behind them is another matter. */
  ghost predicate KeyLies(s: string, p: nat, f: Field)
  {
    Blank(f.before) && Blank(f.mid) && EscapeClosed(f.key) && At(s, p, KeyText(f))
  }

  ghost predicate MemberBreaks(s: string, p: nat, f: Field)
  {
    var b := p + |KeyText(f)|;
    KeyLies(s, p, f) && (ParseValue(s, b) == Throw || exists x: nat :: Unseparated(s, b, f.item, x, '}'))
  }

  /** Behind some members and their commas there is no key, or no colon, or a value
      that throws, or one that is followed by neither a comma nor the bracket. */
  ghost predicate ObjectBreaks(s: string, p: nat, fields: seq<Field>)
  {
    var b := p + |LedFields(fields)|;
    && (forall i | 0 <= i < |fields| :: LenientField(fields[i])) && At(s, p, LedFields(fields))
    && (KeyBreaks(s, b) || exists f :: MemberBreaks(s, b, f))
  }

  lemma LedFieldsHead(s: string, p: nat, fields: seq<Field>)
    requires fields != [] && At(s, p, LedFields(fields)) && LenientField(fields[0])
    ensures var f := fields[0]; var t := p + |FieldText(f)|;
      && t < |s| && s[t] == ',' && At(s, t + 1, LedFields(fields[1..]))
      && Entry(s, p) == Ok(Member(f.key, Meaning(f.item.doc)), t)
      && t + 1 + |LedFields(fields[1..])| == p + |LedFields(fields)|
  {
    hide Entry, FieldText, LenientField, Meaning, At;
    var f := fields[0];
    AtSplit(s, p, FieldText(f), "," + LedFields(fields[1..]));
    var t := p + |FieldText(f)|;
    AtSplit(s, t, ",", LedFields(fields[1..]));
    AtFirst(s, t, ",", LedFields(fields[1..]));
    FieldParses(s, p, f);
  }

  /** A member that breaks ends the loop. */
  lemma MemberThrows(s: string, p: nat, f: Field, acc: seq<Member>)
    requires MemberBreaks(s, p, f)
    ensures ObjectLoop(s, p, acc) == Throw
  {
    hide ParseKey, Element, At, ParseValue, ItemEnds, EscapeClosed, Blank, KeyText, Put, Meaning;
    KeyParses(s, p, f);
    var b := p + |KeyText(f)|;
    ElementThrows(s, b);
    if ParseValue(s, b) != Throw {
      var x: nat :| Unseparated(s, b, f.item, x, '}');
      ItemEndsParses(s, b, f.item, x);
    }
  }

  lemma {:induction false} ObjectLoopBreaks(s: string, p: nat, fields: seq<Field>, acc: seq<Member>)
    requires p <= |s| && ObjectBreaks(s, p, fields)
    ensures ObjectLoop(s, p, acc) == Throw
    decreases |fields|
  {
    hide Entry, FieldText, LenientField, Meaning, At, MemberBreaks, Put, KeyBreaks;
    if fields == [] {
      if KeyBreaks(s, p) {
        KeyThrowsExactly(s, p);
        KeyStops(s, p);
      } else {
        var f :| MemberBreaks(s, p, f);
        MemberThrows(s, p, f, acc);
      }
    } else {
      LedFieldsHead(s, p, fields);
      var f := fields[0];
      ObjectLoopBreaks(s, p + |FieldText(f)| + 1, fields[1..], Put(acc, f.key, Meaning(f.item.doc)));
    }
  }

  lemma KeyStops(s: string, p: nat)
    requires ParseKey(s, p) == Throw
    ensures Entry(s, p) == Throw
  {
    hide ParseKey, Element;
  }

  lemma {:induction false} ObjectLoopBroken(s: string, p: nat, acc: seq<Member>) returns (fields: seq<Field>)
    requires p <= |s| && ObjectLoop(s, p, acc) == Throw
    ensures ObjectBreaks(s, p, fields)
    decreases |s| - p
  {
    hide ParseKey, Entry, FieldText, LenientField, Meaning, At, MemberBreaks, Put, KeyBreaks;
    if Entry(s, p) == Throw {
      fields := [];
      NowhereAt(s, p);
      EntryBroken(s, p);
    } else {
      var f := FieldRead(s, p);
      var t := p + |FieldText(f)|;
      if s[t] == ',' {
        var rest := ObjectLoopBroken(s, t + 1, Put(acc, f.key, Meaning(f.item.doc)));
        fields := [f] + rest;
        assert fields[1..] == rest;
        AtOpen(s, t, LedFields(rest));
        AtJoin(s, p, FieldText(f), "," + LedFields(rest));
        assert p + |LedFields(fields)| == t + 1 + |LedFields(rest)|;
      } else {
        fields := [];
        NowhereAt(s, p);
        var g := MemberBroken(s, p);
      }
    }
  }

  lemma EntryBroken(s: string, p: nat)
    requires p <= |s| && Entry(s, p) == Throw
    ensures KeyBreaks(s, p) || exists f :: MemberBreaks(s, p, f)
  {
    hide ParseKey, Element, At, ParseValue, EscapeClosed, Blank, KeyBreaks;
    KeyThrowsExactly(s, p);
    if ParseKey(s, p) != Throw {
      var before, key, mid := KeyRead(s, p);
      var f := Field(before, key, mid, Item("", DocNothing, ""));
      ElementThrows(s, ParseKey(s, p).p);
      assert MemberBreaks(s, p, f);
    }
  }

  lemma MemberBroken(s: string, p: nat) returns (f: Field)
    requires p <= |s| && Entry(s, p).Ok? && s[Entry(s, p).p] != ',' && s[Entry(s, p).p] != '}'
    ensures MemberBreaks(s, p, f)
  {
    hide ParseKey, Element, At, ParseValue, EscapeClosed, Blank, ItemEnds;
    var before, key, mid := KeyRead(s, p);
    var i := ItemEndsRead(s, ParseKey(s, p).p);
    f := Field(before, key, mid, i);
    assert Unseparated(s, p + |KeyText(f)|, i, Entry(s, p).p, '}');
  }

  /** Exactly when an object makes the parser throw. */
  lemma ObjectThrowsExactly(s: string, p: nat)
    requires p < |s| && s[p] == '{'
    ensures var inside := p + 1; var q := SkipSpace(s, inside);
      ParseObject(s, p) == Throw <==> q < |s| && s[q] != '}' && exists fields :: ObjectBreaks(s, inside, fields)
  {
    hide SkipSpace, ObjectLoop, ObjectBreaks;
    var inside := p + 1;
    ObjectLoopSkips(s, inside);
    if ParseObject(s, p) == Throw {
      var fields := ObjectLoopBroken(s, inside, []);
    }
    forall fields | ObjectBreaks(s, inside, fields) ensures ObjectLoop(s, inside, []) == Throw {
      ObjectLoopBreaks(s, inside, fields, []);
    }
  }

  // ------------------------------------------------------- throwing stays throwing

  lemma IntegerThrowStays(s: string, t: string, p: nat)
    requires Agree(s, t, |s|) && ParseInteger(s, p) == Throw
    ensures ParseInteger(t, p) == Throw
  {
    SkipSpaceLocal(s, t, p, |s|);
    var q := SkipSpace(s, p);
    DigitRunLocal(s, t, q, 0, |s|);
    SkipSpaceLocal(s, t, DigitRun(s, q, 0).value.1, |s|);
  }

  lemma DecimalThrowStays(s: string, t: string, p: nat, neg: bool, whole: nat)
    requires Agree(s, t, |s|) && p < |s| && ParseDecimal(s, p, neg, whole) == Throw
    ensures ParseDecimal(t, p, neg, whole) == Throw
  {
    hide ParseInteger, SkipSpace, FractionEnd;
    var b := SkipSpace(s, p + 1);
    var e := FractionEnd(s, b);
    var q := SkipSpace(s, e);
    SkipSpaceLocal(s, t, e, |s|);
    FractionEndLocal(s, t, b, |s|);
    SkipSpaceLocal(s, t, p + 1, |s|);
    if s[q] != '\0' {
      var r := SkipSpace(s, q + 1);
      SkipSpaceLocal(s, t, q + 1, |s|);
      IntegerThrowStays(s, t, if s[r] == '+' || s[r] == '-' then r + 1 else r);
    }
  }

  lemma NumberThrowStays(s: string, t: string, p: nat)
    requires Agree(s, t, |s|) && p < |s| && ParseNumber(s, p) == Throw
    ensures ParseNumber(t, p) == Throw
  {
    hide ParseInteger, ParseDecimal;
    var q := if s[p] == '-' then p + 1 else p;
    var i := ParseInteger(s, q);
    if i == Throw {
      IntegerThrowStays(s, t, q);
    } else {
      ParseIntegerLocal(s, t, q, |s|);
      DecimalThrowStays(s, t, i.p, s[p] == '-', i.v);
    }
  }

  lemma KeyThrowStays(s: string, t: string, p: nat)
    requires Agree(s, t, |s|) && ParseKey(s, p) == Throw
    ensures ParseKey(t, p) == Throw
  {
    hide SkipSpace, StringEnd;
    var q := SkipSpace(s, p);
    SkipTwice(s, p);
    SkipTwice(t, p);
    SkipSpaceLocal(s, t, p, |s|);
    if ParseString(s, q).Ok? {
      ParseStringLocal(s, t, q, |s|);
      SkipSpaceLocal(s, t, ParseString(s, q).p, |s|);
    }
  }

  /** Whatever is appended to the memory: where the parser threw it throws. It does not
      take the end of the memory for an error in the text. */
  lemma {:induction false} ThrowStays(s: string, t: string, p: nat)
    requires Agree(s, t, |s|) && ParseValue(s, p) == Throw
    ensures ParseValue(t, p) == Throw
    decreases Left(s, p), 1
  {
    hide SkipSpace, ArrayLoop, ObjectLoop, ParseNumber, StringEnd;
    var q := SkipSpace(s, p);
    SkipSpaceLocal(s, t, p, |s|);
    SkipTwice(s, p);
    SkipTwice(t, p);
    if s[q] == '[' {
      SkipSpaceLocal(s, t, q + 1, |s|);
      ArrayThrowStays(s, t, SkipSpace(s, q + 1), []);
    } else if s[q] == '{' {
      SkipSpaceLocal(s, t, q + 1, |s|);
      ObjectThrowStays(s, t, SkipSpace(s, q + 1), []);
    } else if s[q] == '-' || IsDigit(s[q]) || s[q] == '.' {
      NumberThrowStays(s, t, q);
    }
  }

  lemma {:induction false} ArrayThrowStays(s: string, t: string, p: nat, acc: seq<Value>)
    requires Agree(s, t, |s|) && ArrayLoop(s, p, acc) == Throw
    ensures ArrayLoop(t, p, acc) == Throw
    decreases Left(s, p), 3
  {
    hide Element, ParseValue;
    var v := Element(s, p);
    ElementThrows(s, p);
    ElementThrows(t, p);
    if v == Throw {
      ThrowStays(s, t, p);
    } else {
      ElementLocal(s, t, p, |s|);
      if s[v.p] == ',' { ArrayThrowStays(s, t, v.p + 1, acc + [v.v]); }
    }
  }

  lemma {:induction false} ObjectThrowStays(s: string, t: string, p: nat, acc: seq<Member>)
    requires Agree(s, t, |s|) && ObjectLoop(s, p, acc) == Throw
    ensures ObjectLoop(t, p, acc) == Throw
    decreases Left(s, p), 3
  {
    hide Element, ParseValue, ParseKey, Put;
    var key := ParseKey(s, p);
    if key == Throw {
      KeyThrowStays(s, t, p);
    } else if Entry(s, p) == Throw {
      ParseKeyLocal(s, t, p, |s|);
      ElementThrows(s, key.p);
      ElementThrows(t, key.p);
      ThrowStays(s, t, key.p);
    } else {
      var m := Entry(s, p);
      EntryLocal(s, t, p, |s|);
      if s[m.p] == ',' { ObjectThrowStays(s, t, m.p + 1, Put(acc, m.v.key, m.v.value)); }
    }
  }

  // ------------------------------------------------------------------- numbers

  lemma NumberOnly(s: string, p: nat, neg: bool)
    requires var q := if neg then p + 1 else p; q < |s| && IsDigit(s[q]) && !ParseInteger(s, q).Ok?
    requires neg ==> s[p] == '-'
    ensures var r := ParseInteger(s, if neg then p + 1 else p);
      ParseValue(s, p) == if r == Throw then Throw else Undefined
  {
    hide ParseInteger, ParseDecimal;
  }

  /** Where the digits begin, past a sign. */
  lemma AfterSign(s: string, p: nat, neg: bool, digits: string)
    requires digits != [] && Digits(digits) && At(s, p, Signed(neg, digits))
    ensures var q := if neg then p + 1 else p;
      q < |s| && IsDigit(s[q]) && At(s, q, digits) && (neg ==> s[p] == '-') && q + |digits| == p + |Signed(neg, digits)|
  {
    if neg { assert Signed(neg, digits)[1..] == digits; }
  }

  lemma CutDigitsThrow(s: string, p: nat, digits: string)
    requires Whole(digits) && At(s, p, digits) && p < |s| && IsDigit(s[p])
    requires var e := p + |digits|; var q := SkipSpace(s, e); (e < |s| ==> !IsDigit(s[e])) && q < |s| && s[q] == '\0'
    ensures ParseInteger(s, p) == Throw
  {
    hide DigitsValue;
    assert [] + digits == digits;
    NoValue();
    DigitRunReads(s, p, [], digits);
  }

  /** An integer with nothing but blanks up to a NUL throws. */
  lemma CutIntegerThrows(s: string, p: nat, neg: bool, digits: string)
    requires Whole(digits) && At(s, p, Signed(neg, digits))
    requires var e := p + |Signed(neg, digits)|; var q := SkipSpace(s, e);
      (e < |s| ==> !IsDigit(s[e])) && q < |s| && s[q] == '\0'
    ensures ParseValue(s, p) == Throw
  {
    hide DigitsValue, SkipSpace, At, Digits, ParseInteger, ParseValue;
    var q := if neg then p + 1 else p;
    AfterSign(s, p, neg, digits);
    CutDigitsThrow(s, q, digits);
    NumberOnly(s, p, neg);
  }

  /** Digits that make no `int` have no meaning, whatever follows. */
  lemma OverflowIsUndefined(s: string, p: nat, neg: bool, digits: string)
    requires digits != [] && Digits(digits) && DigitsValue(digits) > MAX_INT && At(s, p, Signed(neg, digits))
    ensures ParseValue(s, p) == Undefined
  {
    hide DigitsValue, At, Digits, ParseValue, ParseInteger;
    var q := if neg then p + 1 else p;
    AfterSign(s, p, neg, digits);
    LargeDigits(s, q, digits);
    NumberOnly(s, p, neg);
  }

  lemma LargeDigits(s: string, p: nat, digits: string)
    requires Digits(digits) && DigitsValue(digits) > MAX_INT && At(s, p, digits) && p < |s| && IsDigit(s[p])
    ensures ParseInteger(s, p) == Undefined
  {
    hide DigitsValue;
    assert [] + digits == digits;
    NoValue();
    DigitRunOverflows(s, p, [], digits);
    DigitIsNoBlank(s, p);
  }

  lemma DigitIsNoBlank(s: string, p: nat)
    requires p < |s| && IsDigit(s[p])
    ensures SkipSpace(s, p) == p
  {
  }

  lemma {:induction false} DigitRunOverflows(s: string, p: nat, done: string, rest: string)
    requires Digits(rest) && At(s, p, rest) && DigitsValue(done) <= MAX_INT < DigitsValue(done + rest)
    ensures DigitRun(s, p, DigitsValue(done)).None?
    decreases |rest|
  {
    hide DigitsValue;
    assert done + [] == done;
    if rest != [] {
      var next := done + [rest[0]];
      OneMoreDigit(done, rest[0]);
      assert next + rest[1..] == done + rest;
      if DigitsValue(next) <= MAX_INT { DigitRunOverflows(s, p + 1, next, rest[1..]); }
    }
  }
}

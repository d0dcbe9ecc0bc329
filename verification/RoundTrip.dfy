/** Printing and parsing undo each other, and exactly when. */
module RoundTrip {
  import opened Json
  import opened Parser
  import opened NormalForm
  import opened Grammar

  /** The layout `dump` chooses: no blanks, members in key order. */
  function Canonical(v: Value): Doc
    requires DecimalFree(v)
    decreases v
  {
    match v
    case Null => DocWord("null")
    case Bool(b) => DocWord(if b then "true" else "false")
    case Int(n) => DocInt(n < 0, NatText(if n < 0 then 0 - n else n))
    case Str(raw) => DocStr(raw)
    case Array(es) => DocArray("", CanonicalItems(es))
    case Object(ms) => DocObject("", CanonicalFields(ms))
  }

  function CanonicalItems(es: seq<Value>): (items: seq<Item>)
    requires forall i | 0 <= i < |es| :: DecimalFree(es[i])
    ensures |items| == |es|
    decreases es
  {
    if es == [] then [] else [Item("", Canonical(es[0]), "")] + CanonicalItems(es[1..])
  }

  function CanonicalFields(ms: seq<Member>): (fields: seq<Field>)
    requires forall i | 0 <= i < |ms| :: DecimalFree(ms[i].value)
    ensures |fields| == |ms|
    decreases ms
  {
    if ms == [] then []
    else [Field("", ms[0].key, "", Item("", Canonical(ms[0].value), ""))] + CanonicalFields(ms[1..])
  }

  // ------------------------------------------------------- dump is that layout

  lemma {:induction false} CanonicalIsDump(v: Value)
    requires DecimalFree(v)
    ensures Text(Canonical(v)) == Dump(v)
    decreases v
  {
    match v
    case Array(es) => CanonicalItemsDump(es);
    case Object(ms) => CanonicalFieldsDump(ms);
    case _ =>
  }

  lemma {:induction false} CanonicalItemsDump(es: seq<Value>)
    requires forall i | 0 <= i < |es| :: DecimalFree(es[i])
    ensures ItemsText(CanonicalItems(es)) == DumpElems(es)
    decreases es
  {
    hide Text, Dump;
    if es != [] {
      CanonicalIsDump(es[0]);
      CanonicalItemsDump(es[1..]);
      assert ItemText(CanonicalItems(es)[0]) == Dump(es[0]);
      assert CanonicalItems(es)[1..] == CanonicalItems(es[1..]);
    }
  }

  lemma CanonicalFieldDump(key: string, d: Doc)
    ensures FieldText(Field("", key, "", Item("", d, ""))) == "\"" + key + "\":" + Text(d)
  {
    hide Text;
    assert ItemText(Item("", d, "")) == Text(d);
    assert KeyText(Field("", key, "", Item("", d, ""))) == "\"" + key + "\":";
  }

  lemma {:induction false} CanonicalFieldsDump(ms: seq<Member>)
    requires forall i | 0 <= i < |ms| :: DecimalFree(ms[i].value)
    ensures FieldsText(CanonicalFields(ms)) == DumpMembers(ms)
    decreases ms
  {
    hide Text, Dump, FieldText;
    if ms != [] {
      CanonicalIsDump(ms[0].value);
      CanonicalFieldsDump(ms[1..]);
      CanonicalFieldDump(ms[0].key, Canonical(ms[0].value));
      assert CanonicalFields(ms)[1..] == CanonicalFields(ms[1..]);
    }
  }

  // -------------------------------------------- and it means the value printed

  lemma {:induction false} NatTextDenotes(n: nat)
    ensures NatText(n) != [] && forall i | 0 <= i < |NatText(n)| :: IsDigit(NatText(n)[i])
    ensures DigitsValue(NatText(n)) == n
  {
    if n >= 10 {
      NatTextDenotes(n / 10);
      assert NatText(n)[..|NatText(n)| - 1] == NatText(n / 10);
    }
  }

  lemma {:induction false} CanonicalMeans(v: Value)
    requires DecimalFree(v) && Normal(v)
    ensures WellFormed(Canonical(v)) && Meaning(Canonical(v)) == v
    decreases v
  {
    match v
    case Int(n) => NatTextDenotes(if n < 0 then 0 - n else n);
    case Array(es) =>
      CanonicalItemsMean(es, []);
      assert [] + es == es;
    case Object(ms) =>
      CanonicalFieldsMean(ms, []);
      assert [] + ms == ms;
    case _ =>
  }

  lemma {:induction false} CanonicalItemsMean(es: seq<Value>, acc: seq<Value>)
    requires forall i | 0 <= i < |es| :: DecimalFree(es[i]) && Normal(es[i])
    ensures forall i | 0 <= i < |es| :: WellFormedItem(CanonicalItems(es)[i])
    ensures ItemsMeaning(CanonicalItems(es), acc) == acc + es
    decreases es
  {
    hide Meaning, WellFormed, Normal, Canonical;
    if es == [] {
      assert acc + es == acc;
    } else {
      CanonicalMeans(es[0]);
      CanonicalItemsMean(es[1..], acc + [es[0]]);
      var items := CanonicalItems(es);
      assert items[1..] == CanonicalItems(es[1..]);
      assert forall i | 0 < i < |es| :: items[i] == items[1..][i - 1];
      assert (acc + [es[0]]) + es[1..] == acc + es;
    }
  }

  lemma {:induction false} CanonicalFieldsMean(ms: seq<Member>, acc: seq<Member>)
    requires NormalMembers(acc + ms) && forall i | 0 <= i < |ms| :: DecimalFree(ms[i].value)
    ensures forall i | 0 <= i < |ms| :: WellFormedField(CanonicalFields(ms)[i])
    ensures FieldsMeaning(CanonicalFields(ms), acc) == acc + ms
    decreases ms
  {
    hide Meaning, WellFormed, Normal, Canonical, Put, EscapeClosed;
    if ms == [] {
      assert acc + ms == acc;
    } else {
      var all, next := acc + ms, acc + [ms[0]];
      assert all[|acc|] == ms[0];
      assert forall i | 0 <= i < |acc| :: all[i] == acc[i];
      PutAppends(acc, ms[0].key, ms[0].value);
      assert next + ms[1..] == all;
      CanonicalMeans(ms[0].value);
      CanonicalFieldsMean(ms[1..], next);
      var fields := CanonicalFields(ms);
      assert fields[1..] == CanonicalFields(ms[1..]);
      assert forall i | 0 < i < |ms| :: fields[i] == fields[1..][i - 1];
    }
  }

  // ------------------------------------------------------------- main results

  /** Nothing behind such a text can be read as part of it. */
  lemma StrictStops(d: Doc, s: string, e: nat)
    requires WellFormed(d) && !d.DocInt?
    ensures Follows(s, e, d) && Stop(s, e, d) == e
  {
  }

  /** Any text of the grammar that is not a bare integer, whatever its blanks
      and whatever follows it, parses to its meaning. */
  lemma EveryLayoutParses(d: Doc, rest: string)
    requires WellFormed(d) && !d.DocInt?
    ensures ParseValue(Text(d) + rest, 0) == Ok(Meaning(d), |Text(d)|)
  {
    StrictStops(d, Text(d) + rest, |Text(d)|);
    hide ParseValue, Meaning, WellFormed, Lenient, Text, At;
    WellFormedIsLenient(d);
    AtSlice(Text(d) + rest, 0, Text(d));
    assert (Text(d) + rest)[0..|Text(d)|] == Text(d);
    ValueParses(Text(d) + rest, 0, d);
  }

  /** Parsing a dump gives the value back, whatever follows it in memory. */
  lemma DumpParsesBack(v: Value, rest: string)
    requires DecimalFree(v) && Normal(v) && !v.Int?
    ensures ParseValue(Dump(v) + rest, 0) == Ok(v, |Dump(v)|)
  {
    hide ParseValue, Meaning, WellFormed, Text, Normal, Dump;
    CanonicalIsDump(v);
    CanonicalMeans(v);
    EveryLayoutParses(Canonical(v), rest);
  }

  /** The same tokens without the blanks between them. */
  function Compact(d: Doc): Doc
    decreases d
  {
    match d
    case DocArray(_, items) => DocArray("", CompactItems(items))
    case DocObject(_, fields) => DocObject("", CompactFields(fields))
    case _ => d
  }

  function CompactItems(items: seq<Item>): seq<Item>
    decreases items
  {
    if items == [] then [] else [Item("", Compact(items[0].doc), "")] + CompactItems(items[1..])
  }

  function CompactFields(fields: seq<Field>): seq<Field>
    decreases fields
  {
    if fields == [] then []
    else [Field("", fields[0].key, "", Item("", Compact(fields[0].item.doc), ""))] + CompactFields(fields[1..])
  }

  lemma {:induction false} CompactMeans(d: Doc)
    ensures Meaning(Compact(d)) == Meaning(d)
    decreases d
  {
    match d
    case DocArray(_, items) => CompactItemsMean(items, []);
    case DocObject(_, fields) => CompactFieldsMean(fields, []);
    case _ =>
  }

  lemma {:induction false} CompactItemsMean(items: seq<Item>, acc: seq<Value>)
    ensures ItemsMeaning(CompactItems(items), acc) == ItemsMeaning(items, acc)
    decreases items
  {
    hide Meaning, Compact;
    if items != [] {
      CompactMeans(items[0].doc);
      assert CompactItems(items)[1..] == CompactItems(items[1..]);
      CompactItemsMean(items[1..], acc + [Meaning(items[0].doc)]);
    }
  }

  lemma {:induction false} CompactFieldsMean(fields: seq<Field>, acc: seq<Member>)
    ensures FieldsMeaning(CompactFields(fields), acc) == FieldsMeaning(fields, acc)
    decreases fields
  {
    hide Meaning, Compact, Put;
    if fields != [] {
      CompactMeans(fields[0].item.doc);
      assert CompactFields(fields)[1..] == CompactFields(fields[1..]);
      CompactFieldsMean(fields[1..], Put(acc, fields[0].key, Meaning(fields[0].item.doc)));
    }
  }

  /** The tokens of a dump, with any blanks between them and anything behind,
      parse back to the value printed, to the last character and not past it. */
  lemma BlanksDoNotMatter(v: Value, d: Doc, rest: string)
    requires DecimalFree(v) && Normal(v) && !v.Int?
    requires WellFormed(d) && Compact(d) == Canonical(v)
    ensures ParseValue(Text(d) + rest, 0) == Ok(v, |Text(d)|)
  {
    hide ParseValue, Meaning, WellFormed, Text, Normal;
    CanonicalMeans(v);
    CompactMeans(d);
    EveryLayoutParses(d, rest);
  }

  /** The document of the last member with this key. */
  function LastOf(fields: seq<Field>, key: string): Option<Doc>
  {
    if fields == [] then None
    else
      match LastOf(fields[1..], key)
      case Some(d) => Some(d)
      case None => if fields[0].key == key then Some(fields[0].item.doc) else None
  }

  lemma {:induction false} LastFieldWins(fields: seq<Field>, acc: seq<Member>, key: string)
    requires Sorted(acc)
    ensures Sorted(FieldsMeaning(fields, acc))
    ensures Get(FieldsMeaning(fields, acc), key) ==
      match LastOf(fields, key) case Some(d) => Some(Meaning(d)) case None => Get(acc, key)
    decreases |fields|
  {
    hide Meaning, Put, Get;
    if fields != [] {
      var value := Meaning(fields[0].item.doc);
      PutIsMapUpdate(acc, fields[0].key, value);
      LastFieldWins(fields[1..], Put(acc, fields[0].key, value), key);
    }
  }

  /** A parsed object has its keys strictly sorted, and of members with the same
      key the last one counts. */
  lemma LastDuplicateWins(blank: string, fields: seq<Field>, rest: string, key: string)
    requires WellFormed(DocObject(blank, fields))
    ensures var r := ParseValue(Text(DocObject(blank, fields)) + rest, 0);
      && r.Ok? && r.v.Object? && Sorted(r.v.members)
      && Get(r.v.members, key) == match LastOf(fields, key) case Some(d) => Some(Meaning(d)) case None => None
  {
    hide ParseValue, WellFormed, Text, FieldsMeaning, LastOf;
    EveryLayoutParses(DocObject(blank, fields), rest);
    LastFieldWins(fields, [], key);
  }

  lemma {:induction false} DigitRunReachesEnd(s: string, p: nat, acc: nat)
    requires p < |s| && (forall i | p <= i < |s| - 1 :: IsDigit(s[i])) && !IsDigit(s[|s| - 1])
    requires DigitRun(s, p, acc).Some?
    ensures DigitRun(s, p, acc).value.1 == |s| - 1
    decreases |s| - p
  {
    if IsDigit(s[p]) { DigitRunReachesEnd(s, p + 1, acc * 10 + DigitValue(s[p])); }
  }

  lemma IntegerNeedsMore(s: string, q: nat)
    requires q < |s| - 1 && s[|s| - 1] == '\0' && forall i | q <= i < |s| - 1 :: IsDigit(s[i])
    ensures !ParseInteger(s, q).Ok?
  {
    if DigitRun(s, q, 0).Some? { DigitRunReachesEnd(s, q, 0); }
  }

  /** A text that is all of an integer up to a NUL is no number. */
  lemma NumberNeedsMore(n: int)
    ensures var s := IntText(n) + ['\0'];
      !ParseNumber(s, 0).Ok? && (s[0] == '-' || IsDigit(s[0]))
  {
    hide NatText, DigitsValue, ParseDecimal, ParseInteger;
    var s := IntText(n) + ['\0'];
    var q := if n < 0 then 1 else 0;
    var digits := NatText(if n < 0 then 0 - n else n);
    NatTextDenotes(if n < 0 then 0 - n else n);
    assert forall i | q <= i < |s| - 1 :: s[i] == digits[i - q];
    IntegerNeedsMore(s, q);
  }

  /** A bare integer never parses: the number parser wants a character after it. */
  lemma BareIntegerNeverParses(n: int)
    ensures !Parse(Dump(Int(n))).Ok?
  {
    hide IntText, ParseNumber, ParseObject, ParseArray, ParseString;
    NumberNeedsMore(n);
  }

  /** Exactly which values survive the trip through text. */
  lemma RoundTripExactlyNormal(v: Value)
    requires DecimalFree(v)
    ensures (Parse(Dump(v)).Ok? && Parse(Dump(v)).v == v) <==> (Normal(v) && !v.Int?)
  {
    hide ParseValue, Dump, Normal, DecimalFree;
    if v.Int? {
      BareIntegerNeverParses(v.n);
    } else if Normal(v) {
      DumpParsesBack(v, ['\0']);
    } else if Parse(Dump(v)).Ok? {
      ParsedIsNormal(Dump(v) + ['\0'], 0);
    }
  }

  /** Whatever was parsed can be printed and parsed again. */
  lemma ParsedPrintsBack(s: string, p: nat)
    requires var r := ParseValue(s, p); r.Ok? && DecimalFree(r.v) && !r.v.Int?
    ensures var v := ParseValue(s, p).v; Parse(Dump(v)) == Ok(v, |Dump(v)|)
  {
    hide ParseValue, Dump, Normal, DecimalFree;
    ParsedIsNormal(s, p);
    DumpParsesBack(ParseValue(s, p).v, ['\0']);
  }

  /** Different values print differently. */
  lemma DumpIsInjective(a: Value, b: Value)
    requires DecimalFree(a) && Normal(a) && DecimalFree(b) && Normal(b)
    requires Dump(a) == Dump(b)
    ensures a == b
  {
    DumpParsesBack(Array([a]), "");
    DumpParsesBack(Array([b]), "");
    assert Dump(Array([a])) == Dump(Array([b]));
  }
}

/** Every value the parser produces is in a normal form, whatever the input. */
module NormalForm {
  import opened Json
  import opened Parser

  /** The body of a string literal: no quote ends it early and no escape is cut. */
  predicate EscapeClosed(raw: string)
  {
    if raw == [] then true
    else if raw[0] == '\"' then false
    else if raw[0] == '\\' then |raw| >= 2 && EscapeClosed(raw[2..])
    else EscapeClosed(raw[1..])
  }

  predicate Normal(v: Value)
  {
    match v
    case Str(raw) => EscapeClosed(raw)
    case Int(n) => -MAX_INT <= n <= MAX_INT
    case Array(es) => forall i | 0 <= i < |es| :: Normal(es[i])
    case Object(ms) => Sorted(ms) && forall i | 0 <= i < |ms| :: EscapeClosed(ms[i].key) && Normal(ms[i].value)
    case _ => true
  }

  ghost predicate NormalMembers(ms: seq<Member>)
  {
    Sorted(ms) && forall i | 0 <= i < |ms| :: EscapeClosed(ms[i].key) && Normal(ms[i].value)
  }

  lemma {:induction false} StringBodyIsClosed(s: string, p: nat)
    requires StringEnd(s, p) < |s|
    ensures EscapeClosed(s[p..StringEnd(s, p)])
    decreases |s| - p
  {
    var e := StringEnd(s, p);
    var body := s[p..e];
    if s[p] == '\"' {
      assert body == [];
    } else {
      var step := if s[p] == '\\' then 2 else 1;
      StringBodyIsClosed(s, p + step);
      assert body[step..] == s[p + step..e];
    }
  }

  lemma {:induction false} PutMembers(ms: seq<Member>, key: string, value: Value)
    ensures forall m | m in Put(ms, key, value) :: m in ms || m == Member(key, value)
  {
    if ms != [] && ms[0].key != key && !Less(key, ms[0].key) {
      PutMembers(ms[1..], key, value);
    }
  }

  lemma PutKeepsNormal(ms: seq<Member>, key: string, value: Value)
    requires NormalMembers(ms) && EscapeClosed(key) && Normal(value)
    ensures NormalMembers(Put(ms, key, value))
  {
    PutIsMapUpdate(ms, key, value);
    PutMembers(ms, key, value);
    var all := Put(ms, key, value);
    forall i | 0 <= i < |all| ensures EscapeClosed(all[i].key) && Normal(all[i].value) {
      assert all[i] in all;
    }
  }

  lemma {:induction false} DigitRunBounded(s: string, p: nat, acc: nat)
    requires acc <= MAX_INT && DigitRun(s, p, acc).Some?
    ensures DigitRun(s, p, acc).value.0 <= MAX_INT
    decreases |s| - p
  {
    if p < |s| && IsDigit(s[p]) { DigitRunBounded(s, p + 1, acc * 10 + DigitValue(s[p])); }
  }

  lemma ParseNumberNormal(s: string, p: nat)
    requires p < |s| && ParseNumber(s, p).Ok?
    ensures Normal(ParseNumber(s, p).v)
  {
    hide ParseDecimal, DigitRun, SkipSpace;
    var q := if s[p] == '-' then p + 1 else p;
    if IsDigit(s[q]) { DigitRunBounded(s, SkipSpace(s, q), 0); }
  }

  lemma ParseStringNormal(s: string, p: nat)
    requires ParseString(s, p).Ok?
    ensures EscapeClosed(ParseString(s, p).v)
  {
    StringBodyIsClosed(s, SkipSpace(s, p) + 1);
  }

  /** Main result: strings and keys are escape-closed, keys sorted and unique,
      integers in range, for every accepted input. */
  lemma {:induction false} ParsedIsNormal(s: string, p: nat)
    requires ParseValue(s, p).Ok?
    ensures Normal(ParseValue(s, p).v)
    decreases Left(s, p), 1
  {
    var q := SkipSpace(s, p);
    if s[q] == '\0' {
    } else if s[q] == '{' {
      var b := SkipSpace(s, q + 1);
      if s[b] != '}' { ObjectLoopNormal(s, b, []); }
    } else if s[q] == '[' {
      var b := SkipSpace(s, q + 1);
      if s[b] != ']' { ArrayLoopNormal(s, b, []); }
    } else if s[q] == '\"' {
      ParseStringNormal(s, q);
    } else if s[q] == '-' || IsDigit(s[q]) || s[q] == '.' {
      ParseNumberNormal(s, q);
    }
  }

  lemma {:induction false} ArrayLoopNormal(s: string, p: nat, acc: seq<Value>)
    requires ArrayLoop(s, p, acc).Ok? && Normal(Array(acc))
    ensures Normal(ArrayLoop(s, p, acc).v)
    decreases Left(s, p), 3
  {
    hide SkipSpace;
    var e := Element(s, p);
    ParsedIsNormal(s, SkipSpace(s, p));
    assert Normal(Array(acc + [e.v]));
    if s[e.p] == ',' { ArrayLoopNormal(s, e.p + 1, acc + [e.v]); }
  }

  lemma {:induction false} EntryNormal(s: string, p: nat)
    requires Entry(s, p).Ok?
    ensures EscapeClosed(Entry(s, p).v.key) && Normal(Entry(s, p).v.value)
    decreases Left(s, p), 2
  {
    var b := ParseKey(s, p).p;
    ParseStringNormal(s, SkipSpace(s, p));
    assert Element(s, b).Ok?;
    ParsedIsNormal(s, SkipSpace(s, b));
  }

  lemma {:induction false} ObjectLoopNormal(s: string, p: nat, acc: seq<Member>)
    requires ObjectLoop(s, p, acc).Ok? && NormalMembers(acc)
    ensures Normal(ObjectLoop(s, p, acc).v)
    decreases Left(s, p), 3
  {
    hide Entry, Put;
    var m := Entry(s, p);
    EntryNormal(s, p);
    PutKeepsNormal(acc, m.v.key, m.v.value);
    if s[m.p] == ',' { ObjectLoopNormal(s, m.p + 1, Put(acc, m.v.key, m.v.value)); }
  }
}

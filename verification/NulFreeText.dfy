/** Texts without a zero byte: what of a value's strings it takes for its dump to be
    one. */
module NulFreeText {
  import opened Json
  import opened Framing

  predicate NulFree(t: string) { forall i | 0 <= i < |t| :: Byte(t[i]) != 0 }

  /** No string and no key in the value holds a NUL. */
  predicate NulFreeValue(v: Value)
  {
    match v
    case Str(raw) => NulFree(raw)
    case Array(es) => forall i | 0 <= i < |es| :: NulFreeValue(es[i])
    case Object(ms) => forall i | 0 <= i < |ms| :: NulFree(ms[i].key) && NulFreeValue(ms[i].value)
    case _ => true
  }

  lemma NulFreeAppend(a: string, b: string)
    requires NulFree(a) && NulFree(b)
    ensures NulFree(a + b)
  {
  }

  lemma {:induction false} NatTextNulFree(n: nat)
    ensures NulFree(NatText(n))
  {
    if n >= 10 { NatTextNulFree(n / 10); }
  }

  /** Then its dump holds none. */
  lemma {:induction false} DumpNulFree(v: Value)
    requires DecimalFree(v) && NulFreeValue(v)
    ensures NulFree(Dump(v))
    decreases v, 0
  {
    hide DumpElems, DumpMembers;
    match v
    case Int(n) => NatTextNulFree(if n < 0 then -n else n);
    case Array(es) => ElemsNulFree(es);
    case Object(ms) => MembersNulFree(ms);
    case _ =>
  }

  lemma {:induction false} ElemsNulFree(es: seq<Value>)
    requires forall i | 0 <= i < |es| :: DecimalFree(es[i]) && NulFreeValue(es[i])
    ensures NulFree(DumpElems(es))
    decreases es
  {
    hide Dump, NulFree;
    EmptyNulFree();
    if es != [] {
      DumpNulFree(es[0]);
      ElemsNulFree(es[1..]);
      NulFreeAppend(Dump(es[0]), ",");
      NulFreeAppend(Dump(es[0]) + ",", DumpElems(es[1..]));
    }
  }

  lemma EmptyNulFree()
    ensures NulFree("") && NulFree(",") && NulFree("\"") && NulFree("\":")
  {
  }

  lemma {:induction false} MembersNulFree(ms: seq<Member>)
    requires forall i | 0 <= i < |ms| :: DecimalFree(ms[i].value) && NulFree(ms[i].key) && NulFreeValue(ms[i].value)
    ensures NulFree(DumpMembers(ms))
    decreases ms
  {
    hide Dump, NulFree;
    EmptyNulFree();
    if ms != [] {
      var m := ms[0];
      DumpNulFree(m.value);
      MembersNulFree(ms[1..]);
      NulFreeAppend("\"", m.key);
      NulFreeAppend("\"" + m.key, "\":");
      NulFreeAppend("\"" + m.key + "\":", Dump(m.value));
      NulFreeAppend(DumpMember(m), ",");
      NulFreeAppend(DumpMember(m) + ",", DumpMembers(ms[1..]));
    }
  }
}

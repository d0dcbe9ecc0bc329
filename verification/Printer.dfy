/** The stream operators that print a value, with their loops and separators. */
module Printer {
  import opened Json

  class Stream {
    var text: string

    constructor ()
      ensures text == ""
    {
      text := "";
    }

    method Put(t: string)
      modifies this
      ensures text == old(text) + t
    {
      text := text + t;
    }

    method Print(v: Value)
      requires DecimalFree(v)
      modifies this
      ensures text == old(text) + Dump(v)
      decreases v, 0
    {
      hide DumpElems, DumpMembers;
      match v
      case Null => Put("null");
      case Bool(b) => Put(if b then "true" else "false");
      case Int(n) => Put(IntText(n));
      case Str(raw) => Put("\""); Put(raw); Put("\"");
      case Array(es) => PrintElems(es);
      case Object(ms) => PrintMembers(ms);
    }

    method PrintElems(es: seq<Value>)
      requires forall i | 0 <= i < |es| :: DecimalFree(es[i])
      modifies this
      ensures text == old(text) + "[" + DumpElems(es) + "]"
      decreases es
    {
      hide Dump;
      Put("[");
      ghost var start := text;
      for i := 0 to |es|
        invariant text + DumpElems(es[i..]) == start + DumpElems(es)
      {
        assert es[i..][0] == es[i] && es[i..][1..] == es[i + 1..];
        Print(es[i]);
        if |es| - i > 1 { Put(","); }
      }
      assert es[|es|..] == [];
      Put("]");
    }

    method PrintMember(m: Member)
      requires DecimalFree(m.value)
      modifies this
      ensures text == old(text) + DumpMember(m)
      decreases m
    {
      hide Dump;
      Put("\"");
      Put(m.key);
      Put("\":");
      assert text == old(text) + ("\"" + m.key + "\":");
      Print(m.value);
    }

    method PrintMembers(ms: seq<Member>)
      requires forall i | 0 <= i < |ms| :: DecimalFree(ms[i].value)
      modifies this
      ensures text == old(text) + "{" + DumpMembers(ms) + "}"
      decreases ms
    {
      hide Dump, DumpMember;
      Put("{");
      ghost var start := text;
      for i := 0 to |ms|
        invariant text + DumpMembers(ms[i..]) == start + DumpMembers(ms)
      {
        assert ms[i..][0] == ms[i] && ms[i..][1..] == ms[i + 1..];
        PrintMember(ms[i]);
        if |ms| - i > 1 { Put(","); }
      }
      assert ms[|ms|..] == [];
      Put("}");
    }
  }
}

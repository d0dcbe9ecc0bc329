/** The parser looks no further than it must: what it did on one memory it does
    on every memory that shares the characters it consumed. `Codec::decode`
    ignores the frame length and reads a reused buffer, so remote calls rest on
    this. */
module Locality {
  import opened Json
  import opened Parser

  /** The two memories share their first `k` characters. */
  ghost predicate Agree(s: string, t: string, k: nat)
  {
    k <= |s| && k <= |t| && forall i | 0 <= i < k :: s[i] == t[i]
  }

  lemma {:induction false} SkipSpaceLocal(s: string, t: string, p: nat, k: nat)
    requires Agree(s, t, k) && SkipSpace(s, p) < k
    ensures SkipSpace(t, p) == SkipSpace(s, p)
    decreases k - p
  {
    if IsSpace(s[p]) { SkipSpaceLocal(s, t, p + 1, k); }
  }

  lemma {:induction false} StringEndLocal(s: string, t: string, p: nat, k: nat)
    requires Agree(s, t, k) && StringEnd(s, p) < k
    ensures StringEnd(t, p) == StringEnd(s, p)
    decreases k - p
  {
    if s[p] != '\"' { StringEndLocal(s, t, if s[p] == '\\' then p + 2 else p + 1, k); }
  }

  lemma ParseStringLocal(s: string, t: string, p: nat, k: nat)
    requires Agree(s, t, k) && ParseString(s, p).Ok? && ParseString(s, p).p <= k
    ensures ParseString(t, p) == ParseString(s, p)
  {
    var q := SkipSpace(s, p);
    SkipSpaceLocal(s, t, p, k);
    StringEndLocal(s, t, q + 1, k);
    var e := StringEnd(s, q + 1);
    assert s[q + 1..e] == t[q + 1..e];
  }

  lemma {:induction false} DigitRunLocal(s: string, t: string, p: nat, acc: nat, k: nat)
    requires Agree(s, t, k) && DigitRun(s, p, acc).Some? && DigitRun(s, p, acc).value.1 < k
    ensures DigitRun(t, p, acc) == DigitRun(s, p, acc)
    decreases k - p
  {
    if IsDigit(s[p]) { DigitRunLocal(s, t, p + 1, acc * 10 + DigitValue(s[p]), k); }
  }

  lemma {:induction false} FractionEndLocal(s: string, t: string, p: nat, k: nat)
    requires Agree(s, t, k) && FractionEnd(s, p) < k
    ensures FractionEnd(t, p) == FractionEnd(s, p)
    decreases k - p
  {
    if IsDigit(s[p]) { FractionEndLocal(s, t, p + 1, k); }
  }

  lemma ParseIntegerLocal(s: string, t: string, p: nat, k: nat)
    requires Agree(s, t, k) && ParseInteger(s, p).Ok? && ParseInteger(s, p).p < k
    ensures ParseInteger(t, p) == ParseInteger(s, p)
  {
    SkipSpaceLocal(s, t, p, k);
    DigitRunLocal(s, t, SkipSpace(s, p), 0, k);
    var (i, q) := DigitRun(s, SkipSpace(s, p), 0).value;
    SkipSpaceLocal(s, t, q, k);
  }

  lemma ParseExponentLocal(s: string, t: string, p: nat, neg: bool, whole: nat, fraction: string, k: nat)
    requires Agree(s, t, k)
    requires var r := ParseExponent(s, p, neg, whole, fraction); r.Ok? && r.p < k
    ensures ParseExponent(t, p, neg, whole, fraction) == ParseExponent(s, p, neg, whole, fraction)
  {
    hide ParseInteger, SkipSpace;
    SkipSpaceLocal(s, t, p + 1, k);
    var q := SkipSpace(s, p + 1);
    ParseIntegerLocal(s, t, if s[q] == '+' || s[q] == '-' then q + 1 else q, k);
  }

  lemma ParseDecimalLocal(s: string, t: string, p: nat, neg: bool, whole: nat, k: nat)
    requires p < k && Agree(s, t, k)
    requires ParseDecimal(s, p, neg, whole).Ok? && ParseDecimal(s, p, neg, whole).p < k
    ensures ParseDecimal(t, p, neg, whole) == ParseDecimal(s, p, neg, whole)
  {
    hide ParseExponent, SkipSpace, FractionEnd;
    var b := SkipSpace(s, p + 1);
    var e := FractionEnd(s, b);
    var d := SkipSpace(s, e);
    if s[d] == 'e' || s[d] == 'E' { ParseExponentLocal(s, t, d, neg, whole, s[b..e], k); }
    SkipSpaceLocal(s, t, e, k);
    FractionEndLocal(s, t, b, k);
    SkipSpaceLocal(s, t, p + 1, k);
    assert s[b..e] == t[b..e];
  }

  lemma ParseNumberLocal(s: string, t: string, p: nat, k: nat)
    requires p < k && Agree(s, t, k) && ParseNumber(s, p).Ok? && ParseNumber(s, p).p < k
    ensures ParseNumber(t, p) == ParseNumber(s, p)
  {
    hide ParseInteger, ParseDecimal;
    var q := if s[p] == '-' then p + 1 else p;
    if IsDigit(s[q]) {
      var i := ParseInteger(s, q);
      if s[i.p] == '.' { ParseDecimalLocal(s, t, i.p, s[p] == '-', i.v, k); }
      ParseIntegerLocal(s, t, q, k);
    }
  }

  /** One value: it reads at most the character its cursor stops on. */
  lemma {:induction false} ParseValueLocal(s: string, t: string, p: nat, k: nat)
    requires Agree(s, t, k) && ParseValue(s, p).Ok? && ParseValue(s, p).p < k
    ensures ParseValue(t, p) == ParseValue(s, p)
    decreases Left(s, p), 1
  {
    var q := SkipSpace(s, p);
    SkipSpaceLocal(s, t, p, k);
    if s[q] == '\0' {
    } else if s[q] == '{' {
      ParseContainerLocal(s, t, q, k);
    } else if s[q] == '[' {
      ParseContainerLocal(s, t, q, k);
    } else if s[q] == '\"' {
      ParseStringLocal(s, t, q, k);
    } else if s[q] == '-' || IsDigit(s[q]) || s[q] == '.' {
      ParseNumberLocal(s, t, q, k);
    }
  }

  /** A container: nothing past its closing bracket is read. */
  lemma {:induction false} ParseContainerLocal(s: string, t: string, p: nat, k: nat)
    requires p < k && Agree(s, t, k)
    ensures ParseArray(s, p).Ok? && ParseArray(s, p).p <= k ==> ParseArray(t, p) == ParseArray(s, p)
    ensures ParseObject(s, p).Ok? && ParseObject(s, p).p <= k ==> ParseObject(t, p) == ParseObject(s, p)
    decreases Left(s, p), 0
  {
    hide ArrayLoop, ObjectLoop, SkipSpace;
    var q := SkipSpace(s, p + 1);
    if ParseArray(s, p).Ok? && ParseArray(s, p).p <= k {
      SkipSpaceLocal(s, t, p + 1, k);
      if s[q] != ']' { ArrayLoopLocal(s, t, q, [], k); }
    }
    if ParseObject(s, p).Ok? && ParseObject(s, p).p <= k {
      SkipSpaceLocal(s, t, p + 1, k);
      if s[q] != '}' { ObjectLoopLocal(s, t, q, [], k); }
    }
  }

  lemma {:induction false} ElementLocal(s: string, t: string, p: nat, k: nat)
    requires Agree(s, t, k) && Element(s, p).Ok? && Element(s, p).p < k
    ensures Element(t, p) == Element(s, p)
    decreases Left(s, p), 2
  {
    var b := SkipSpace(s, p);
    ParseValueLocal(s, t, b, k);
    SkipSpaceLocal(s, t, ParseValue(s, b).p, k);
    SkipSpaceLocal(s, t, p, k);
  }

  lemma {:induction false} ArrayLoopLocal(s: string, t: string, p: nat, acc: seq<Value>, k: nat)
    requires Agree(s, t, k) && ArrayLoop(s, p, acc).Ok? && ArrayLoop(s, p, acc).p <= k
    ensures ArrayLoop(t, p, acc) == ArrayLoop(s, p, acc)
    decreases Left(s, p), 3
  {
    hide Element;
    var v := Element(s, p);
    if s[v.p] == ',' { ArrayLoopLocal(s, t, v.p + 1, acc + [v.v], k); }
    ElementLocal(s, t, p, k);
  }

  lemma ParseKeyLocal(s: string, t: string, p: nat, k: nat)
    requires Agree(s, t, k) && ParseKey(s, p).Ok? && ParseKey(s, p).p <= k
    ensures ParseKey(t, p) == ParseKey(s, p)
  {
    var name := ParseString(s, SkipSpace(s, p));
    SkipSpaceLocal(s, t, name.p, k);
    SkipSpaceLocal(s, t, p, k);
    ParseStringLocal(s, t, SkipSpace(s, p), k);
  }

  lemma {:induction false} EntryLocal(s: string, t: string, p: nat, k: nat)
    requires Agree(s, t, k) && Entry(s, p).Ok? && Entry(s, p).p < k
    ensures Entry(t, p) == Entry(s, p)
    decreases Left(s, p), 3
  {
    ParseKeyLocal(s, t, p, k);
    ElementLocal(s, t, ParseKey(s, p).p, k);
  }

  lemma {:induction false} ObjectLoopLocal(s: string, t: string, p: nat, acc: seq<Member>, k: nat)
    requires Agree(s, t, k) && ObjectLoop(s, p, acc).Ok? && ObjectLoop(s, p, acc).p <= k
    ensures ObjectLoop(t, p, acc) == ObjectLoop(s, p, acc)
    decreases Left(s, p), 4
  {
    hide Entry, Put;
    var m := Entry(s, p);
    if s[m.p] == ',' { ObjectLoopLocal(s, t, m.p + 1, Put(acc, m.v.key, m.v.value), k); }
    EntryLocal(s, t, p, k);
  }

  /** Decoding a message whose value is a container is independent of whatever
      follows the message in memory. */
  lemma DecodeIgnoresStaleBytes(message: string, stale: string, otherStale: string)
    requires var r := ParseValue(message + stale, 0); r.Ok? && r.p <= |message| && (r.v.Object? || r.v.Array?)
    ensures ParseValue(message + otherStale, 0) == ParseValue(message + stale, 0)
  {
    hide ParseArray, ParseObject, ParseNumber, ParseString;
    var s, t := message + stale, message + otherStale;
    SkipSpaceLocal(s, t, 0, |message|);
    ParseContainerLocal(s, t, SkipSpace(s, 0), |message|);
  }
}

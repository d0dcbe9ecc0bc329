/** JSON values as the library stores them (base/vsjson/JsonValue.h), the sorted
    object table behind `std::map<std::string, Json>`, and the printer
    (base/vsjson/Json.h, base/vsjson/internal/TypeCompat.h).

    A C++ `char` is a Dafny `char`; strings are kept and printed raw, with their
    escapes, so no text encoding is involved. */
module Json {

  datatype Option<+T> = None | Some(value: T)

  /** What a decimal literal says. The double it denotes stays abstract. */
  datatype Lexeme = Lexeme(neg: bool, whole: int, fraction: string, exponent: Option<(bool, int)>)

  datatype Member = Member(key: string, value: Value)

  datatype Value =
    | Null
    | Object(members: seq<Member>)
    | Array(elems: seq<Value>)
    | Str(raw: string)
    | Int(n: int)
    | Decimal(lexeme: Lexeme)
    | Bool(b: bool)

  /** Largest magnitude the parser can build in an `int`. */
  const MAX_INT := 0x7fff_ffff

  // ---------------------------------------------------------------- key order

  /** Order of `std::less<std::string>`. */
  predicate Less(a: string, b: string)
  {
    b != [] && (a == [] || a[0] < b[0] || (a[0] == b[0] && Less(a[1..], b[1..])))
  }

  lemma {:induction false} LessIrreflexive(a: string)
    ensures !Less(a, a)
  {
    if a != [] { LessIrreflexive(a[1..]); }
  }

  lemma {:induction false} LessTransitive(a: string, b: string, c: string)
    requires Less(a, b) && Less(b, c)
    ensures Less(a, c)
  {
    if a != [] && a[0] == b[0] && b[0] == c[0] {
      LessTransitive(a[1..], b[1..], c[1..]);
    }
  }

  lemma {:induction false} LessTotal(a: string, b: string)
    ensures Less(a, b) || a == b || Less(b, a)
  {
    if a != [] && b != [] && a[0] == b[0] {
      LessTotal(a[1..], b[1..]);
      assert a == [a[0]] + a[1..];
      assert b == [b[0]] + b[1..];
    }
  }

  /** They agree on the first `n` characters, and there `a` ends or is smaller. */
  predicate SmallerAt(a: string, b: string, n: nat)
  {
    n <= |a| && n < |b| && a[..n] == b[..n] && (n == |a| || a[n] < b[n])
  }

  /** It is the dictionary order: up to some place they agree, and there the smaller
      one ends or has the smaller character. */
  lemma {:induction false} LessExactly(a: string, b: string)
    ensures Less(a, b) <==> exists n: nat :: SmallerAt(a, b, n)
    decreases |a|
  {
    if b == [] {
    } else if a == [] || a[0] != b[0] {
      if Less(a, b) { assert SmallerAt(a, b, 0); }
      forall n: nat | SmallerAt(a, b, n) ensures Less(a, b) {
        if n > 0 { assert a[..n][0] == b[..n][0]; }
      }
    } else {
      LessExactly(a[1..], b[1..]);
      forall n: nat ensures SmallerAt(a[1..], b[1..], n) <==> SmallerAt(a, b, n + 1) { SmallerLater(a, b, n); }
      forall n: nat | SmallerAt(a, b, n) ensures n > 0 && SmallerAt(a[1..], b[1..], n - 1) { SmallerLater(a, b, n - 1); }
    }
  }

  lemma SmallerLater(a: string, b: string, n: int)
    requires a != [] && b != [] && a[0] == b[0] && n >= -1
    ensures n >= 0 ==> (SmallerAt(a[1..], b[1..], n) <==> SmallerAt(a, b, n + 1))
    ensures n == -1 ==> !SmallerAt(a, b, 0)
  {
    if 0 <= n < |a| && n + 1 <= |b| {
      assert a[..n + 1] == [a[0]] + a[1..][..n] && b[..n + 1] == [b[0]] + b[1..][..n];
      if a[..n + 1] == b[..n + 1] { assert a[1..][..n] == a[..n + 1][1..] && b[1..][..n] == b[..n + 1][1..]; }
    }
  }

  // ------------------------------------------------------------- object table

  /** Keys strictly increase, so they are also unique. */
  predicate Sorted(ms: seq<Member>)
  {
    forall i, j | 0 <= i < j < |ms| :: Less(ms[i].key, ms[j].key)
  }

  /** `object[key] = value`: insert in order, or overwrite. */
  function Put(ms: seq<Member>, key: string, value: Value): seq<Member>
  {
    if ms == [] then [Member(key, value)]
    else if ms[0].key == key then [Member(key, value)] + ms[1..]
    else if Less(key, ms[0].key) then [Member(key, value)] + ms
    else [ms[0]] + Put(ms[1..], key, value)
  }

  /** `find`, or `contains` and indexing in one. */
  function Get(ms: seq<Member>, key: string): Option<Value>
  {
    if ms == [] then None
    else if ms[0].key == key then Some(ms[0].value)
    else Get(ms[1..], key)
  }

  /** `erase(key)`. */
  function Erase(ms: seq<Member>, key: string): seq<Member>
  {
    if ms == [] then []
    else if ms[0].key == key then ms[1..]
    else [ms[0]] + Erase(ms[1..], key)
  }

  predicate Above(key: string, ms: seq<Member>)
  {
    forall i | 0 <= i < |ms| :: Less(key, ms[i].key)
  }

  lemma SortedCons(m: Member, ms: seq<Member>)
    requires Sorted(ms) && Above(m.key, ms)
    ensures Sorted([m] + ms)
  {
    var all := [m] + ms;
    forall i, j | 0 <= i < j < |all| ensures Less(all[i].key, all[j].key) {
      assert all[j] == ms[j - 1];
      if i > 0 { assert all[i] == ms[i - 1]; }
    }
  }

  lemma SortedHead(ms: seq<Member>)
    requires Sorted(ms) && ms != []
    ensures Sorted(ms[1..]) && Above(ms[0].key, ms[1..])
  {
    forall i | 0 <= i < |ms[1..]| ensures Less(ms[0].key, ms[1..][i].key) {
      assert ms[1..][i] == ms[i + 1];
    }
  }

  /** The table stays sorted, and it is a map update: last write wins, every
      other key is untouched. */
  lemma {:induction false} PutIsMapUpdate(ms: seq<Member>, key: string, value: Value)
    requires Sorted(ms)
    ensures Sorted(Put(ms, key, value))
    ensures forall k :: Get(Put(ms, key, value), k) == if k == key then Some(value) else Get(ms, k)
    ensures forall k | Less(k, key) && Above(k, ms) :: Above(k, Put(ms, key, value))
  {
    if ms == [] {
      assert Get([], key) == None;
    } else {
      var rest := ms[1..];
      SortedHead(ms);
      assert ms == [ms[0]] + rest;
      if ms[0].key == key {
        SortedCons(Member(key, value), rest);
      } else if Less(key, ms[0].key) {
        forall i | 0 <= i < |ms| ensures Less(key, ms[i].key) {
          if i > 0 { LessTransitive(key, ms[0].key, ms[i].key); }
        }
        SortedCons(Member(key, value), ms);
        assert ([Member(key, value)] + ms)[1..] == ms;
      } else {
        LessTotal(key, ms[0].key);
        PutIsMapUpdate(rest, key, value);
        SortedCons(ms[0], Put(rest, key, value));
        assert ([ms[0]] + Put(rest, key, value))[1..] == Put(rest, key, value);
        forall k | Less(k, key) && Above(k, ms) ensures Above(k, Put(ms, key, value)) {
          assert Above(k, rest) by {
            forall i | 0 <= i < |rest| ensures Less(k, rest[i].key) { assert rest[i] == ms[i + 1]; }
          }
          assert Less(k, ms[0].key);
          var p := Put(rest, key, value);
          forall i | 0 <= i < |p| + 1 ensures Less(k, ([ms[0]] + p)[i].key) {
            if i > 0 { assert ([ms[0]] + p)[i] == p[i - 1]; }
          }
        }
      }
    }
  }

  lemma {:induction false} GetAbsent(ms: seq<Member>, k: string)
    requires Above(k, ms)
    ensures Get(ms, k) == None
  {
    if ms != [] {
      LessIrreflexive(k);
      assert forall i | 0 <= i < |ms[1..]| :: ms[1..][i] == ms[i + 1];
      GetAbsent(ms[1..], k);
    }
  }

  /** Erasing is a map removal. */
  lemma {:induction false} EraseIsMapRemoval(ms: seq<Member>, key: string)
    requires Sorted(ms)
    ensures Sorted(Erase(ms, key))
    ensures forall k :: Get(Erase(ms, key), k) == if k == key then None else Get(ms, k)
    ensures forall k | Above(k, ms) :: Above(k, Erase(ms, key))
  {
    if ms != [] {
      var rest := ms[1..];
      SortedHead(ms);
      assert forall i | 0 <= i < |rest| :: rest[i] == ms[i + 1];
      if ms[0].key == key {
        GetAbsent(rest, key);
      } else {
        EraseIsMapRemoval(rest, key);
        var e := Erase(rest, key);
        SortedCons(ms[0], e);
        assert ([ms[0]] + e)[1..] == e;
        forall k | Above(k, ms) ensures Above(k, [ms[0]] + e) {
          assert Above(k, rest) && Less(k, ms[0].key);
          forall i | 0 <= i < |e| + 1 ensures Less(k, ([ms[0]] + e)[i].key) {
            if i > 0 { assert ([ms[0]] + e)[i] == e[i - 1]; }
          }
        }
      }
    }
  }

  /** Writing a key above every key present appends it. */
  lemma {:induction false} PutAppends(ms: seq<Member>, key: string, value: Value)
    requires forall i | 0 <= i < |ms| :: Less(ms[i].key, key)
    ensures Put(ms, key, value) == ms + [Member(key, value)]
  {
    if ms != [] {
      LessIrreflexive(key);
      if Less(key, ms[0].key) { LessTransitive(key, ms[0].key, key); }
      assert forall i | 0 <= i < |ms[1..]| :: ms[1..][i] == ms[i + 1];
      PutAppends(ms[1..], key, value);
      assert ms == [ms[0]] + ms[1..];
    }
  }

  /** Writing a key twice is writing it the second time. */
  lemma {:induction false} PutTwice(ms: seq<Member>, key: string, first: Value, second: Value)
    ensures Put(Put(ms, key, first), key, second) == Put(ms, key, second)
  {
    if ms != [] && ms[0].key != key && !Less(key, ms[0].key) {
      PutTwice(ms[1..], key, first, second);
      assert Put(ms, key, first)[1..] == Put(ms[1..], key, first);
    } else {
      assert Put(ms, key, first)[0] == Member(key, first);
      assert Put(ms, key, first)[1..] == Put(ms, key, second)[1..];
    }
  }

  // ----------------------------------------------------------------- printing

  predicate DecimalFree(v: Value)
  {
    match v
    case Decimal(_) => false
    case Array(es) => forall i | 0 <= i < |es| :: DecimalFree(es[i])
    case Object(ms) => forall i | 0 <= i < |ms| :: DecimalFree(ms[i].value)
    case _ => true
  }

  function Digit(d: nat): char
    requires d < 10
  {
    ('0' as int + d) as char
  }

  function NatText(n: nat): string
  {
    if n < 10 then [Digit(n)] else NatText(n / 10) + [Digit(n % 10)]
  }

  function IntText(n: int): string
  {
    if n < 0 then "-" + NatText(-n) else NatText(n)
  }

  /** `operator<<` on a value, and `dump()`. Decimals are left out: how a stream
      rounds a double is not modelled. */
  function Dump(v: Value): string
    requires DecimalFree(v)
    decreases v, 0
  {
    match v
    case Null => "null"
    case Bool(b) => if b then "true" else "false"
    case Int(n) => IntText(n)
    case Str(raw) => "\"" + raw + "\""
    case Array(es) => "[" + DumpElems(es) + "]"
    case Object(ms) => "{" + DumpMembers(ms) + "}"
  }

  function DumpElems(es: seq<Value>): string
    requires forall i | 0 <= i < |es| :: DecimalFree(es[i])
    decreases es
  {
    if es == [] then ""
    else if |es| == 1 then Dump(es[0])
    else Dump(es[0]) + "," + DumpElems(es[1..])
  }

  function DumpMember(m: Member): string
    requires DecimalFree(m.value)
    decreases m
  {
    "\"" + m.key + "\":" + Dump(m.value)
  }

  function DumpMembers(ms: seq<Member>): string
    requires forall i | 0 <= i < |ms| :: DecimalFree(ms[i].value)
    decreases ms
  {
    if ms == [] then ""
    else if |ms| == 1 then DumpMember(ms[0])
    else DumpMember(ms[0]) + "," + DumpMembers(ms[1..])
  }
}

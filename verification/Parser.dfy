/** What base/vsjson/Parser.h computes, as functions over a memory and a position.

    `s` is the memory the cursor may read and `p` an index into it. Three things
    can happen: a value and a new cursor, a `JsonException`, or a step C++ gives
    no meaning to (a read past the memory, an `int` that overflows, an exponent
    past its table), which is `Undefined`. */
module Parser {
  import opened Json

  datatype Outcome<+T> = Ok(v: T, p: nat) | Throw | Undefined

  predicate IsSpace(c: char) { c == ' ' || c == '\n' || c == '\t' || c == '\r' }

  predicate IsDigit(c: char) { '0' <= c <= '9' }

  function DigitValue(c: char): nat
    requires IsDigit(c)
  {
    c as int - '0' as int
  }

  function SkipSpace(s: string, p: nat): (q: nat)
    ensures p <= q
    ensures p <= |s| ==> q <= |s|
    decreases |s| - p
  {
    if p < |s| && IsSpace(s[p]) then SkipSpace(s, p + 1) else p
  }

  // ------------------------------------------------------------------ scalars

  /** Index of the quote that closes a string whose body starts at `p`, or an
      index past the memory when there is none. */
  function StringEnd(s: string, p: nat): (e: nat)
    ensures p <= e
    decreases |s| - p
  {
    if p >= |s| then p
    else if s[p] == '\"' then p
    else if s[p] == '\\' then StringEnd(s, p + 2)
    else StringEnd(s, p + 1)
  }

  function ParseString(s: string, p: nat): (r: Outcome<string>)
    ensures r.Ok? ==> p < r.p <= |s|
  {
    var q := SkipSpace(s, p);
    if q >= |s| then Undefined
    else if s[q] != '\"' then Throw
    else
      var e := StringEnd(s, q + 1);
      if e >= |s| then Undefined else Ok(s[q + 1..e], e + 1)
  }

  /** The digit loop of `parseInteger`: running value and cursor, `None` once
      the value no longer fits an `int`. */
  function DigitRun(s: string, p: nat, acc: nat): (r: Option<(nat, nat)>)
    ensures r.Some? ==> p <= r.value.1
    decreases |s| - p
  {
    if p < |s| && IsDigit(s[p]) then
      var next := acc * 10 + DigitValue(s[p]);
      if next > MAX_INT then None else DigitRun(s, p + 1, next)
    else Some((acc, p))
  }

  function ParseInteger(s: string, p: nat): (r: Outcome<nat>)
    ensures r.Ok? ==> p <= r.p < |s|
  {
    match DigitRun(s, SkipSpace(s, p), 0)
    case None => Undefined
    case Some((i, q)) =>
      var r := SkipSpace(s, q);
      if r >= |s| then Undefined
      else if s[r] == '\0' then Throw
      else Ok(i, r)
  }

  function FractionEnd(s: string, p: nat): (q: nat)
    ensures p <= q
    ensures p <= |s| ==> q <= |s|
    decreases |s| - p
  {
    if p < |s| && IsDigit(s[p]) then FractionEnd(s, p + 1) else p
  }

  /** Entries of the table of powers of ten. */
  const EXPONENT_LIMIT := 309

  function ParseExponent(s: string, p: nat, neg: bool, whole: nat, fraction: string): (r: Outcome<Value>)
    ensures r.Ok? ==> p < r.p < |s| && r.v.Decimal?
  {
    var q := SkipSpace(s, p + 1);
    if q >= |s| then Undefined
    else
      var digits := if s[q] == '+' || s[q] == '-' then q + 1 else q;
      match ParseInteger(s, digits)
      case Throw => Throw
      case Undefined => Undefined
      case Ok(e, t) =>
        if e >= EXPONENT_LIMIT then Undefined
        else Ok(Decimal(Lexeme(neg, whole, fraction, Some((s[q] == '-', e)))), t)
  }

  function ParseDecimal(s: string, p: nat, neg: bool, whole: nat): (r: Outcome<Value>)
    requires p < |s|
    ensures r.Ok? ==> p < r.p < |s| && r.v.Decimal?
  {
    var b := SkipSpace(s, p + 1);
    var e := FractionEnd(s, b);
    var q := SkipSpace(s, e);
    if q >= |s| then Undefined
    else if s[q] == '\0' then Throw
    else if s[q] == 'e' || s[q] == 'E' then ParseExponent(s, q, neg, whole, s[b..e])
    else Ok(Decimal(Lexeme(neg, whole, s[b..e], None)), q)
  }

  function ParseNumber(s: string, p: nat): (r: Outcome<Value>)
    requires p < |s|
    ensures r.Ok? ==> p <= r.p < |s| && !r.v.Array? && !r.v.Object?
  {
    var neg := s[p] == '-';
    var q := if neg then p + 1 else p;
    if q >= |s| then Undefined
    else if !IsDigit(s[q]) then Ok(Null, q)
    else
      match ParseInteger(s, q)
      case Throw => Throw
      case Undefined => Undefined
      case Ok(i, t) =>
        if s[t] != '.' then Ok(Int(if neg then 0 - i else i), t)
        else ParseDecimal(s, t, neg, i)
  }

  // --------------------------------------------------------------- containers

  function Left(s: string, p: nat): nat { if p <= |s| then |s| - p else 0 }

  /** `parseImpl`. The literals skip their length without looking at it, and an
      unexpected character yields null without being consumed. */
  function ParseValue(s: string, p: nat): (r: Outcome<Value>)
    ensures r.Ok? ==> p <= r.p
    ensures r.Ok? && (r.v.Object? || r.v.Array?) ==> r.p <= |s|
    decreases Left(s, p), 1
  {
    var q := SkipSpace(s, p);
    if q >= |s| then Undefined
    else if s[q] == '\0' then Ok(Null, q)
    else if s[q] == '{' then ParseObject(s, q)
    else if s[q] == '[' then ParseArray(s, q)
    else if s[q] == '\"' then
      match ParseString(s, q)
      case Ok(raw, t) => Ok(Str(raw), t)
      case Throw => Throw
      case Undefined => Undefined
    else if s[q] == 'n' then Ok(Null, q + 4)
    else if s[q] == 't' then Ok(Bool(true), q + 4)
    else if s[q] == 'f' then Ok(Bool(false), q + 5)
    else if s[q] == '-' || IsDigit(s[q]) || s[q] == '.' then ParseNumber(s, q)
    else Ok(Null, q)
  }

  function ParseArray(s: string, p: nat): (r: Outcome<Value>)
    requires p < |s|
    ensures r.Ok? ==> p < r.p <= |s|
    decreases Left(s, p), 0
  {
    var q := SkipSpace(s, p + 1);
    if q >= |s| then Undefined
    else if s[q] == ']' then Ok(Array([]), q + 1)
    else ArrayLoop(s, q, [])
  }

  /** A value with the blanks around it; the cursor stops on what follows. */
  function Element(s: string, p: nat): (r: Outcome<Value>)
    ensures r.Ok? ==> p <= r.p < |s|
    decreases Left(s, p), 2
  {
    match ParseValue(s, SkipSpace(s, p))
    case Throw => Throw
    case Undefined => Undefined
    case Ok(v, e) =>
      var t := SkipSpace(s, e);
      if t >= |s| then Undefined else Ok(v, t)
  }

  function ArrayLoop(s: string, p: nat, acc: seq<Value>): (r: Outcome<Value>)
    ensures r.Ok? ==> p < r.p <= |s|
    decreases Left(s, p), 3
  {
    match Element(s, p)
    case Throw => Throw
    case Undefined => Undefined
    case Ok(v, t) =>
      if s[t] == ']' then Ok(Array(acc + [v]), t + 1)
      else if s[t] == ',' then ArrayLoop(s, t + 1, acc + [v])
      else Throw
  }

  function ParseObject(s: string, p: nat): (r: Outcome<Value>)
    requires p < |s|
    ensures r.Ok? ==> p < r.p <= |s|
    decreases Left(s, p), 0
  {
    var q := SkipSpace(s, p + 1);
    if q >= |s| then Undefined
    else if s[q] == '}' then Ok(Object([]), q + 1)
    else ObjectLoop(s, q, [])
  }

  /** A key and its colon. */
  function ParseKey(s: string, p: nat): (r: Outcome<string>)
    ensures r.Ok? ==> p < r.p <= |s|
  {
    match ParseString(s, SkipSpace(s, p))
    case Throw => Throw
    case Undefined => Undefined
    case Ok(key, e) =>
      var c := SkipSpace(s, e);
      if c >= |s| then Undefined
      else if s[c] != ':' then Throw
      else Ok(key, c + 1)
  }

  function Entry(s: string, p: nat): (r: Outcome<Member>)
    ensures r.Ok? ==> p < r.p < |s|
    decreases Left(s, p), 3
  {
    match ParseKey(s, p)
    case Throw => Throw
    case Undefined => Undefined
    case Ok(key, b) =>
      match Element(s, b)
      case Throw => Throw
      case Undefined => Undefined
      case Ok(v, t) => Ok(Member(key, v), t)
  }

  function ObjectLoop(s: string, p: nat, acc: seq<Member>): (r: Outcome<Value>)
    ensures r.Ok? ==> p < r.p <= |s|
    decreases Left(s, p), 4
  {
    match Entry(s, p)
    case Throw => Throw
    case Undefined => Undefined
    case Ok(m, t) =>
      if s[t] == '}' then Ok(Object(Put(acc, m.key, m.value)), t + 1)
      else if s[t] == ',' then ObjectLoop(s, t + 1, Put(acc, m.key, m.value))
      else Throw
  }

  /** `vsjson::parse(const std::string&)`: the text and its terminating NUL. */
  function Parse(text: string): Outcome<Value>
  {
    ParseValue(text + ['\0'], 0)
  }
}

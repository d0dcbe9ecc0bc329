/** The parser as written: every method advances the shared cursor, in loops that
    fill the container in place. Each computes the function of the same name in
    Parser.dfy, and leaves the cursor where that function says. */
module CursorParser {
  import opened Json
  import P = Parser

  class Cursor {
    const s: string
    var p: nat

    constructor (s: string)
      ensures this.s == s && p == 0
    {
      this.s := s;
      p := 0;
    }

    method SkipSpace()
      modifies this
      ensures p == P.SkipSpace(s, old(p))
    {
      while p < |s| && P.IsSpace(s[p])
        invariant P.SkipSpace(s, p) == P.SkipSpace(s, old(p))
      {
        p := p + 1;
      }
    }

    method ParseString() returns (r: P.Outcome<string>)
      modifies this
      ensures r == P.ParseString(s, old(p))
      ensures r.Ok? ==> p == r.p
    {
      SkipSpace();
      if p >= |s| { return P.Undefined; }
      if s[p] != '\"' { return P.Throw; }
      p := p + 1;
      var start := p;
      while p < |s| && s[p] != '\"'
        invariant start <= p && P.StringEnd(s, p) == P.StringEnd(s, start)
      {
        if s[p] == '\\' { p := p + 1; }
        p := p + 1;
      }
      if p >= |s| { return P.Undefined; }
      var end := p;
      p := p + 1;
      return P.Ok(s[start..end], p);
    }

    method ParseInteger() returns (r: P.Outcome<nat>)
      modifies this
      ensures r == P.ParseInteger(s, old(p))
      ensures r.Ok? ==> p == r.p
    {
      var i: nat := 0;
      SkipSpace();
      var start := p;
      while p < |s| && P.IsDigit(s[p])
        invariant P.DigitRun(s, p, i) == P.DigitRun(s, start, 0)
      {
        i := i * 10 + P.DigitValue(s[p]);
        if i > MAX_INT { return P.Undefined; }
        p := p + 1;
      }
      SkipSpace();
      if p >= |s| { return P.Undefined; }
      if s[p] == '\0' { return P.Throw; }
      return P.Ok(i, p);
    }

    method ParseExponent(neg: bool, whole: nat, fraction: string) returns (r: P.Outcome<Value>)
      modifies this
      ensures r == P.ParseExponent(s, old(p), neg, whole, fraction)
      ensures r.Ok? ==> p == r.p
    {
      p := p + 1;
      SkipSpace();
      if p >= |s| { return P.Undefined; }
      var negative := s[p] == '-';
      if s[p] == '+' || s[p] == '-' { p := p + 1; }
      var i := ParseInteger();
      match i
      case Throw => return P.Throw;
      case Undefined => return P.Undefined;
      case Ok(e, _) =>
        if e >= P.EXPONENT_LIMIT { return P.Undefined; }
        return P.Ok(Decimal(Lexeme(neg, whole, fraction, Some((negative, e)))), p);
    }

    method ParseDecimal(neg: bool, whole: nat) returns (r: P.Outcome<Value>)
      requires p < |s|
      modifies this
      ensures r == P.ParseDecimal(s, old(p), neg, whole)
      ensures r.Ok? ==> p == r.p
    {
      p := p + 1;
      SkipSpace();
      var start := p;
      while p < |s| && P.IsDigit(s[p])
        invariant start <= p && P.FractionEnd(s, p) == P.FractionEnd(s, start)
      {
        p := p + 1;
      }
      var end := p;
      SkipSpace();
      if p >= |s| { return P.Undefined; }
      if s[p] == '\0' { return P.Throw; }
      if s[p] == 'e' || s[p] == 'E' {
        r := ParseExponent(neg, whole, s[start..end]);
      } else {
        r := P.Ok(Decimal(Lexeme(neg, whole, s[start..end], None)), p);
      }
    }

    method ParseNumber() returns (r: P.Outcome<Value>)
      requires p < |s|
      modifies this
      ensures r == P.ParseNumber(s, old(p))
      ensures r.Ok? ==> p == r.p
    {
      var neg := false;
      if s[p] == '-' {
        p := p + 1;
        neg := true;
      }
      if p >= |s| { return P.Undefined; }
      if !P.IsDigit(s[p]) { return P.Ok(Null, p); }
      var i := ParseInteger();
      match i
      case Throw => return P.Throw;
      case Undefined => return P.Undefined;
      case Ok(n, _) =>
        if s[p] != '.' { return P.Ok(Int(if neg then 0 - n else n), p); }
        r := ParseDecimal(neg, n);
    }

    method ParseValue() returns (r: P.Outcome<Value>)
      modifies this
      ensures r == P.ParseValue(s, old(p))
      ensures r.Ok? ==> p == r.p
      decreases P.Left(s, p), 1
    {
      SkipSpace();
      if p >= |s| { return P.Undefined; }
      var c := s[p];
      if c == '\0' {
        r := P.Ok(Null, p);
      } else if c == '{' {
        r := ParseObject();
      } else if c == '[' {
        r := ParseArray();
      } else if c == '\"' {
        var raw := ParseString();
        match raw
        case Throw => r := P.Throw;
        case Undefined => r := P.Undefined;
        case Ok(t, _) => r := P.Ok(Str(t), p);
      } else if c == 'n' {
        p := p + 4;
        r := P.Ok(Null, p);
      } else if c == 't' {
        p := p + 4;
        r := P.Ok(Bool(true), p);
      } else if c == 'f' {
        p := p + 5;
        r := P.Ok(Bool(false), p);
      } else if c == '-' || P.IsDigit(c) || c == '.' {
        r := ParseNumber();
      } else {
        r := P.Ok(Null, p);
      }
    }

    method ParseArray() returns (r: P.Outcome<Value>)
      requires p < |s|
      modifies this
      ensures r == P.ParseArray(s, old(p))
      ensures r.Ok? ==> p == r.p
      decreases P.Left(s, p), 0
    {
      hide P.SkipSpace, P.ParseValue;
      p := p + 1;
      SkipSpace();
      var elems: seq<Value> := [];
      if p >= |s| { return P.Undefined; }
      if s[p] == ']' {
        p := p + 1;
        return P.Ok(Array([]), p);
      }
      while true
        invariant old(p) < p
        invariant P.ArrayLoop(s, p, elems) == P.ParseArray(s, old(p))
        decreases P.Left(s, p)
      {
        ghost var start := p;
        SkipSpace();
        var v := ParseValue();
        match v {
          case Throw => return P.Throw;
          case Undefined => return P.Undefined;
          case Ok(elem, _) =>
            SkipSpace();
            if p >= |s| { return P.Undefined; }
            assert P.Element(s, start) == P.Ok(elem, p);
            elems := elems + [elem];
            if s[p] == ']' {
              p := p + 1;
              return P.Ok(Array(elems), p);
            } else if s[p] == ',' {
              p := p + 1;
            } else {
              return P.Throw;
            }
        }
      }
    }

    method ParseObject() returns (r: P.Outcome<Value>)
      requires p < |s|
      modifies this
      ensures r == P.ParseObject(s, old(p))
      ensures r.Ok? ==> p == r.p
      decreases P.Left(s, p), 0
    {
      hide P.SkipSpace, P.Entry, Put;
      p := p + 1;
      SkipSpace();
      var members: seq<Member> := [];
      if p >= |s| { return P.Undefined; }
      if s[p] == '}' {
        p := p + 1;
        return P.Ok(Object([]), p);
      }
      while true
        invariant old(p) < p
        invariant P.ObjectLoop(s, p, members) == P.ParseObject(s, old(p))
        decreases P.Left(s, p)
      {
        ghost var start := p;
        var m := ParseEntry();
        match m {
          case Throw => return P.Throw;
          case Undefined => return P.Undefined;
          case Ok(member, _) =>
            members := Put(members, member.key, member.value);
            if s[p] == '}' {
              p := p + 1;
              return P.Ok(Object(members), p);
            } else if s[p] == ',' {
              p := p + 1;
            } else {
              return P.Throw;
            }
        }
      }
    }

    /** One round of the object loop, up to the character after the value. */
    method ParseEntry() returns (r: P.Outcome<Member>)
      modifies this
      ensures r == P.Entry(s, old(p))
      ensures r.Ok? ==> p == r.p
      decreases P.Left(s, p), 2
    {
      hide P.SkipSpace, P.ParseString, P.ParseValue;
      SkipSpace();
      var key := ParseString();
      match key
      case Throw => return P.Throw;
      case Undefined => return P.Undefined;
      case Ok(k, _) =>
        SkipSpace();
        if p >= |s| { return P.Undefined; }
        if s[p] != ':' { return P.Throw; }
        p := p + 1;
        ghost var start := p;
        assert P.ParseKey(s, old(p)) == P.Ok(k, start);
        SkipSpace();
        var v := ParseValue();
        match v
        case Throw => return P.Throw;
        case Undefined => return P.Undefined;
        case Ok(value, _) =>
          SkipSpace();
          if p >= |s| { return P.Undefined; }
          assert P.Element(s, start) == P.Ok(value, p);
          return P.Ok(Member(k, value), p);
    }
  }
}

/**
 The parser as it runs: strings are decoded into the very buffer that the text is read from,
 and values point into that buffer.
 */
module JsonInSitu {
  import opened Bytes
  import opened JsonValue
  import opened JsonParser

  /** A value whose strings are positions in the buffer. */
  datatype Slot = SNull | SBool(b: bool) | SSigned(n: int) | SUnsigned(n: int) | SDouble(text: seq<byte>)
                | SString(at: nat) | SArray(elems: seq<Slot>) | SObject(members: seq<SlotMember>)

  datatype SlotMember = SlotMember(nameAt: nat, value: Slot)

  datatype Outcome<T> = Got(v: T) | Fail(e: Error)

  // ---- what a buffer holds

  /** From position `i` on, the buffer still has the text `s` and its terminator. */
  ghost predicate Follows(b: seq<byte>, s: seq<byte>, i: nat) {
    |s| < |b| && b[|s|] == NUL && forall k :: i <= k < |s| ==> b[k] == s[k]
  }

  /** The string `s` and its terminator stand at `at`, inside [lo, hi). */
  ghost predicate StringAt(b: seq<byte>, at: nat, s: seq<byte>, lo: nat, hi: nat) {
    lo <= at && at + |s| < hi <= |b| && b[at..at + |s|] == s && b[at + |s|] == NUL
  }

  /** The slot stands for `v`, with every string inside [lo, hi). */
  ghost predicate Holds(b: seq<byte>, slot: Slot, v: Value, lo: nat, hi: nat)
    decreases slot, 0
  {
    match slot
    case SNull => v == Null
    case SBool(x) => v == Bool(x)
    case SSigned(n) => v == Signed(n)
    case SUnsigned(n) => v == Unsigned(n)
    case SDouble(text) => v == Double(text)
    case SString(at) => v.Str? && StringAt(b, at, v.s, lo, hi)
    case SArray(elems) => v.Arr? && HoldsAll(b, elems, v.elems, lo, hi)
    case SObject(members) => v.Obj? && HoldsMembers(b, members, v.members, lo, hi)
  }

  ghost predicate HoldsAll(b: seq<byte>, slots: seq<Slot>, vs: seq<Value>, lo: nat, hi: nat)
    decreases slots, 1
  {
    |slots| == |vs| && forall i :: 0 <= i < |slots| ==> Holds(b, slots[i], vs[i], lo, hi)
  }

  ghost predicate HoldsMembers(b: seq<byte>, slots: seq<SlotMember>, ms: seq<Member>, lo: nat, hi: nat)
    decreases slots, 1
  {
    |slots| == |ms| && forall i :: 0 <= i < |slots| ==> HoldsMember(b, slots[i], ms[i], lo, hi)
  }

  ghost predicate HoldsMember(b: seq<byte>, slot: SlotMember, m: Member, lo: nat, hi: nat)
    decreases slot, 1
  {
    StringAt(b, slot.nameAt, m.name, lo, hi) && Holds(b, slot.value, m.value, lo, hi)
  }

  /** Only bytes in [lo, hi) differ. */
  ghost predicate SameOutside(a: seq<byte>, b: seq<byte>, lo: nat, hi: nat) {
    lo <= hi <= |a| == |b| && forall k :: 0 <= k < lo || hi <= k < |a| ==> a[k] == b[k]
  }

  /** What was decoded before stays, as long as later writes keep out of its interval. */
  lemma {:induction false} HoldsLater(a: seq<byte>, b: seq<byte>, slot: Slot, v: Value, lo: nat, hi: nat, lo': nat,
                                      hi': nat)
    requires Holds(a, slot, v, lo, hi) && lo' <= lo && hi <= hi' && hi' <= |b|
    requires |a| == |b| && forall k :: lo <= k < hi && k < |a| ==> a[k] == b[k]
    ensures Holds(b, slot, v, lo', hi')
    decreases slot, 0
  {
    match slot
    case SString(at) => StringLater(a, b, at, v.s, lo, hi, lo', hi');
    case SArray(elems) =>
      forall i | 0 <= i < |elems|
        ensures Holds(b, elems[i], v.elems[i], lo', hi')
      {
        HoldsLater(a, b, elems[i], v.elems[i], lo, hi, lo', hi');
      }
    case SObject(members) =>
      forall i | 0 <= i < |members|
        ensures HoldsMember(b, members[i], v.members[i], lo', hi')
      {
        assert HoldsMember(a, members[i], v.members[i], lo, hi);
        StringLater(a, b, members[i].nameAt, v.members[i].name, lo, hi, lo', hi');
        HoldsLater(a, b, members[i].value, v.members[i].value, lo, hi, lo', hi');
      }
    case _ =>
  }

  lemma StringLater(a: seq<byte>, b: seq<byte>, at: nat, s: seq<byte>, lo: nat, hi: nat, lo': nat, hi': nat)
    requires StringAt(a, at, s, lo, hi) && lo' <= lo && hi <= hi' && hi' <= |b|
    requires |a| == |b| && forall k :: lo <= k < hi && k < |a| ==> a[k] == b[k]
    ensures StringAt(b, at, s, lo', hi')
  {
  }

  /** What the C string functions read at a position where a NUL-free string stands. */
  lemma {:induction false} StringReadBack(b: seq<byte>, at: nat, s: seq<byte>, lo: nat, hi: nat)
    requires StringAt(b, at, s, lo, hi) && NulFree(s)
    ensures CStr(b[at..]) == s
    decreases |s|
  {
    if s == [] {
    } else {
      assert b[at] == b[at..at + |s|][0];
      assert b[at + 1..at + 1 + |s[1..]|] == s[1..];
      StringReadBack(b, at + 1, s[1..], at + 1, hi);
      assert b[at..][1..] == b[at + 1..];
    }
  }

  lemma AllLater(a: seq<byte>, b: seq<byte>, slots: seq<Slot>, vs: seq<Value>, lo: nat, hi: nat, hi': nat)
    requires HoldsAll(a, slots, vs, lo, hi) && hi <= hi' <= |b|
    requires |a| == |b| && forall k :: lo <= k < hi && k < |a| ==> a[k] == b[k]
    ensures HoldsAll(b, slots, vs, lo, hi')
  {
    forall i | 0 <= i < |slots|
      ensures Holds(b, slots[i], vs[i], lo, hi')
    {
      HoldsLater(a, b, slots[i], vs[i], lo, hi, lo, hi');
    }
  }

  lemma MembersLater(a: seq<byte>, b: seq<byte>, slots: seq<SlotMember>, ms: seq<Member>, lo: nat, hi: nat, hi': nat)
    requires HoldsMembers(a, slots, ms, lo, hi) && hi <= hi' <= |b|
    requires |a| == |b| && forall k :: lo <= k < hi && k < |a| ==> a[k] == b[k]
    ensures HoldsMembers(b, slots, ms, lo, hi')
  {
    forall i | 0 <= i < |slots|
      ensures HoldsMember(b, slots[i], ms[i], lo, hi')
    {
      assert HoldsMember(a, slots[i], ms[i], lo, hi);
      StringLater(a, b, slots[i].nameAt, ms[i].name, lo, hi, lo, hi');
      HoldsLater(a, b, slots[i].value, ms[i].value, lo, hi, lo, hi');
    }
  }

  /** Another element, parsed from [i, j), after those that stand before `i`. */
  lemma OneMore(a: seq<byte>, b: seq<byte>, slots: seq<Slot>, vs: seq<Value>, slot: Slot, v: Value, lo: nat, i: nat,
                j: nat)
    requires HoldsAll(a, slots, vs, lo, i) && SameOutside(a, b, i, j) && Holds(b, slot, v, i, j) && lo <= i
    ensures HoldsAll(b, slots + [slot], vs + [v], lo, j)
  {
    AllLater(a, b, slots, vs, lo, i, j);
    HoldsLater(b, b, slot, v, i, j, lo, j);
  }

  lemma OneMoreMember(a: seq<byte>, b: seq<byte>, c: seq<byte>, slots: seq<SlotMember>, ms: seq<Member>,
                      slot: SlotMember, m: Member, lo: nat, i: nat, n: nat, h: nat, j: nat)
    requires HoldsMembers(a, slots, ms, lo, i) && lo <= i
    requires SameOutside(a, b, i, n) && StringAt(b, slot.nameAt, m.name, i, n)
    requires n <= h && SameOutside(b, c, h, j) && Holds(c, slot.value, m.value, h, j)
    ensures HoldsMembers(c, slots + [slot], ms + [m], lo, j)
  {
    MembersLater(a, c, slots, ms, lo, i, j);
    StringLater(b, c, slot.nameAt, m.name, i, n, lo, j);
    HoldsLater(c, c, slot.value, m.value, h, j, lo, j);
  }

  // ---- one pass through each of the two loops

  lemma ArrayPass(dbl: RangeTest, s: seq<byte>, i: nat, elems: seq<Value>)
    requires NulFree(s) && i <= |s|
    ensures match ParseValue(dbl, s, i)
            case Err(e) => ArrayFrom(dbl, s, i, elems) == Err(e)
            case Unknown(at) => ArrayFrom(dbl, s, i, elems) == if At(s, at) == RBRACKET then Err(CorruptedArray)
              else Unknown(at)
            case Ok(v, j) =>
              var k := SkipWs(s, j);
              ArrayFrom(dbl, s, i, elems) == if At(s, k) == COMMA then ArrayFrom(dbl, s, SkipWs(s, k + 1), elems + [v])
                                             else if At(s, k) == RBRACKET then Ok(Arr(elems + [v]), k + 1)
                                             else Err(CorruptedArray)
  {
    hide ParseValue, SkipWs;
  }

  lemma ObjectPass(dbl: RangeTest, s: seq<byte>, i: nat, members: seq<Member>)
    requires NulFree(s) && i <= |s|
    ensures match NameAt(s, i)
            case Err(e) => ObjectFrom(dbl, s, i, members) == Err(e)
            case Ok(name, h) =>
              match ParseValue(dbl, s, h)
              case Err(e) => ObjectFrom(dbl, s, i, members) == Err(e)
              case Unknown(at) => ObjectFrom(dbl, s, i, members) == if At(s, at) == RBRACE then Err(CorruptedObject)
                else Unknown(at)
              case Ok(v, j) =>
                var k := SkipWs(s, j);
                var more := members + [Member(name, v)];
                ObjectFrom(dbl, s, i, members) == if At(s, k) == COMMA then ObjectFrom(dbl, s, SkipWs(s, k + 1), more)
                                                  else if At(s, k) == RBRACE then Ok(Obj(more), k + 1)
                                                  else Err(CorruptedObject)
  {
    hide ParseValue, SkipWs, NameAt;
  }

  // ---- the parser

  class ParseContext {
    const json: array<byte>
    var pos: nat
    var blocks: nat

    constructor (json: array<byte>, blocks: nat)
      ensures this.json == json && pos == 0 && this.blocks == blocks
    {
      this.json, pos, this.blocks := json, 0, blocks;
    }

    ghost predicate Reads(s: seq<byte>)
      reads this, json
    {
      NulFree(s) && pos <= |s| && Follows(json[..], s, pos)
    }

    method Alloc() returns (ok: bool)
      modifies this`blocks
      ensures ok <==> old(blocks) > 0
      ensures blocks == if ok then old(blocks) - 1 else 0
    {
      ok := blocks > 0;
      blocks := if ok then blocks - 1 else 0;
    }

    method SkipWhitespaces(ghost s: seq<byte>)
      requires Reads(s)
      modifies this`pos
      ensures Reads(s) && pos == SkipWs(s, old(pos))
    {
      while IsWs(json[pos])
        invariant Reads(s) && SkipWs(s, pos) == SkipWs(s, old(pos))
        decreases |s| - pos
      {
        pos := pos + 1;
      }
    }

    method SkipDigit(ghost s: seq<byte>)
      requires Reads(s)
      modifies this`pos
      ensures Reads(s) && pos == SkipDigits(s, old(pos))
    {
      while IsDigit(json[pos])
        invariant Reads(s) && SkipDigits(s, pos) == SkipDigits(s, old(pos))
        decreases |s| - pos
      {
        pos := pos + 1;
      }
    }

    /** Four hexadecimal digits; after a failure the position is past the offending byte. */
    method ParseHex4(ghost s: seq<byte>) returns (r: Outcome<nat>)
      requires Reads(s)
      modifies this`pos
      ensures match Hex4(s, old(pos))
              case Ok(v, next) => r == Got(v) && pos == next && Reads(s)
              case Err(e) => r == Fail(e)
    {
      var a := HexValue(json[pos]);
      pos := pos + 1;
      if a > 15 {
        return Fail(InvalidHex);
      }
      var b := HexValue(json[pos]);
      pos := pos + 1;
      if b > 15 {
        return Fail(InvalidHex);
      }
      var c := HexValue(json[pos]);
      pos := pos + 1;
      if c > 15 {
        return Fail(InvalidHex);
      }
      var d := HexValue(json[pos]);
      pos := pos + 1;
      if d > 15 {
        return Fail(InvalidHex);
      }
      return Got(a * 0x1000 + b * 0x100 + c * 0x10 + d);
    }

    /** Stores decoded bytes at the write position, which trails the read position. */
    method Put(ghost s: seq<byte>, out: nat, bytes: seq<byte>) returns (out': nat)
      requires Reads(s) && out + |bytes| <= pos
      modifies json
      ensures Reads(s) && out' == out + |bytes| && json[out..out'] == bytes
      ensures SameOutside(old(json[..]), json[..], out, out')
    {
      for i := 0 to |bytes|
        invariant json[out..out + i] == bytes[..i]
        invariant SameOutside(old(json[..]), json[..], out, out + i)
      {
        json[out + i] := bytes[i];
        assert json[out..out + i + 1] == json[out..out + i] + [bytes[i]];
      }
      out' := out + |bytes|;
    }

    /**
     One pass through the loop over a string: `Got(true)` after the closing quote.  The write
     position `out` never passes the read position.
     */
    method ParsePass(ghost s: seq<byte>, out: nat) returns (r: Outcome<bool>, out': nat)
      requires Reads(s) && out <= pos
      modifies this`pos, json
      ensures match PassAt(s, old(pos))
              case Piece(bytes, next) =>
                && r == Got(false) && pos == next && Reads(s) && out' == out + |bytes| <= pos
                && json[out..out'] == bytes && SameOutside(old(json[..]), json[..], out, out')
              case Closed(next) =>
                && r == Got(true) && pos == next && Reads(s) && out' == out < pos && json[out] == NUL
                && SameOutside(old(json[..]), json[..], out, out + 1)
              case Failed(e) => r == Fail(e)
    {
      out' := out;
      var c := json[pos];
      pos := pos + 1;
      if c == BACKSLASH {
        r, out' := ParseEscape(s, out);
      } else if c == QUOTE {
        json[out] := NUL;
        return Got(true), out;
      } else if c == NUL {
        return Fail(UnterminatedString), out;
      } else if c < 0x20 {
        return Fail(UnescapedChar), out;
      } else {
        out' := Put(s, out, [c]);
        return Got(false), out';
      }
    }

    /** The same, after a backslash has been read. */
    method ParseEscape(ghost s: seq<byte>, out: nat) returns (r: Outcome<bool>, out': nat)
      requires Reads(s) && pos > 0 && out < pos && s[pos - 1] == BACKSLASH
      modifies this`pos, json
      ensures match EscapeAt(s, old(pos) - 1)
              case Piece(bytes, next) =>
                && r == Got(false) && pos == next && Reads(s) && out' == out + |bytes| <= pos
                && json[out..out'] == bytes && SameOutside(old(json[..]), json[..], out, out')
              case Failed(e) => r == Fail(e)
    {
      out' := out;
      var e := json[pos];
      pos := pos + 1;
      if Unescape(e) != 0 {
        out' := Put(s, out, [Unescape(e)]);
        return Got(false), out';
      }
      if e != LOWER_U {
        return Fail(InvalidEscapeChar), out;
      }
      var hex := ParseHex4(s);
      if hex.Fail? {
        return Fail(hex.e), out;
      }
      var cp := hex.v;
      if 0xD800 <= cp <= 0xDBFF {
        if json[pos] != BACKSLASH || json[pos + 1] != LOWER_U {
          return Fail(CorruptedSurrogatePair), out;
        }
        pos := pos + 2;
        var low := ParseHex4(s);
        if low.Fail? {
          return Fail(low.e), out;
        }
        if !(0xDC00 <= low.v <= 0xDFFF) {
          return Fail(InvalidSurrogatePair), out;
        }
        cp := Combine(cp, low.v);
      }
      out' := Put(s, out, Utf8(cp));
      return Got(false), out';
    }

    /** A string with its quotes; the result is where the decoded text starts. */
    method ParseString(ghost s: seq<byte>) returns (r: Outcome<nat>)
      requires Reads(s) && json[pos] == QUOTE
      modifies this`pos, json
      ensures match StringFrom(s, old(pos) + 1, [])
              case Ok(str, next) =>
                && r.Got? && pos == next && Reads(s) && StringAt(json[..], r.v, str, old(pos), next)
                && SameOutside(old(json[..]), json[..], old(pos), next)
              case Err(e) => r == Fail(e)
    {
      hide PassAt;
      pos := pos + 1;
      var start := pos;
      var out := start;
      ghost var bytes: seq<byte> := [];
      while true
        invariant Reads(s) && start <= out <= pos && json[start..out] == bytes
        invariant StringFrom(s, pos, bytes) == StringFrom(s, old(pos) + 1, [])
        invariant SameOutside(old(json[..]), json[..], start, pos)
        decreases |s| - pos
      {
        ghost var pass := PassAt(s, pos);
        var more, out' := ParsePass(s, out);
        if more.Fail? {
          return Fail(more.e);
        }
        assert json[start..out] == bytes;
        if more.v {
          return Got(start);
        }
        assert json[start..out'] == json[start..out] + json[out..out'];
        bytes := bytes + pass.bytes;
        out := out';
      }
    }

    method ParseNumber(ghost s: seq<byte>, dbl: RangeTest) returns (r: Outcome<Slot>)
      requires Reads(s)
      modifies this`pos, this`blocks
      ensures r == Fail(OutOfMemory) ==> old(blocks) == blocks == 0
      ensures r.Got? ==> old(blocks) <= blocks + 1
      ensures r != Fail(OutOfMemory) ==>
                match Number(dbl, s, old(pos))
                case Ok(v, next) => r.Got? && pos == next && Reads(s) && Holds(json[..], r.v, v, old(pos), next)
                case Err(e) => r == Fail(e)
    {
      hide Decimal, SkipDigits, SkipFrac, SkipExp, IsDigit, NumberValue;
      var start := pos;
      assert forall k :: start <= k < |s| ==> json[k] == s[k];
      var negative := json[pos] == MINUS;
      if negative {
        pos := pos + 1;
      }
      if json[pos] == ZERO && IsDigit(json[pos + 1]) {
        return Fail(NumberLeadingZero);
      }
      var k := pos;
      SkipDigit(s);
      var d := pos;
      if d == k {
        return Fail(NumberExpected);
      }
      var frac := ParseFrac(s);
      if frac.Fail? {
        return Fail(frac.e);
      }
      var exp := ParseExponent(s);
      if exp.Fail? {
        return Fail(exp.e);
      }
      r := ParseInteger(s, dbl, start, k, d, !frac.v && !exp.v);
    }

    method ParseFrac(ghost s: seq<byte>) returns (r: Outcome<bool>)
      requires Reads(s)
      modifies this`pos
      ensures match SkipFrac(s, old(pos))
              case Ok(v, next) => r == Got(v) && pos == next && Reads(s)
              case Err(e) => r == Fail(e)
    {
      hide SkipDigits;
      if json[pos] != DOT {
        return Got(false);
      }
      pos := pos + 1;
      var start := pos;
      SkipDigit(s);
      return if pos == start then Fail(NumberFracExpected) else Got(true);
    }

    method ParseExponent(ghost s: seq<byte>) returns (r: Outcome<bool>)
      requires Reads(s)
      modifies this`pos
      ensures match SkipExp(s, old(pos))
              case Ok(v, next) => r == Got(v) && pos == next && Reads(s)
              case Err(e) => r == Fail(e)
    {
      hide SkipDigits;
      if json[pos] != LOWER_E && json[pos] != UPPER_E {
        return Got(false);
      }
      pos := pos + 1;
      if json[pos] == PLUS || json[pos] == MINUS {
        pos := pos + 1;
      }
      var start := pos;
      SkipDigit(s);
      return if pos == start then Fail(NumberExpExpected) else Got(true);
    }

    /** The value of the number that ends at the read position. */
    method ParseInteger(ghost s: seq<byte>, dbl: RangeTest, start: nat, k: nat, d: nat, plain: bool)
      returns (r: Outcome<Slot>)
      requires Reads(s) && start <= k <= d <= pos && start < pos && forall h :: start <= h < pos ==> json[h] == s[h]
      requires k == if json[start] == MINUS then start + 1 else start
      modifies this`blocks
      ensures r == Fail(OutOfMemory) ==> old(blocks) == blocks == 0
      ensures r.Got? ==> old(blocks) <= blocks + 1
      ensures r != Fail(OutOfMemory) ==>
                match NumberValue(dbl, s[start] == MINUS, s[k..d], plain, s[start..pos], pos)
                case Ok(v, _) => r.Got? && Holds(json[..], r.v, v, start, pos)
                case Err(e) => r == Fail(e)
    {
      hide Decimal;
      assert json[k..d] == s[k..d];
      assert json[start..pos] == s[start..pos];
      var value := NumberValue(dbl, json[start] == MINUS, json[k..d], plain, json[start..pos], pos);
      if value.Err? {
        return Fail(value.e);
      }
      var granted := Alloc();
      if !granted {
        return Fail(OutOfMemory);
      }
      match value.v
      case Signed(n) => return Got(SSigned(n));
      case Unsigned(n) => return Got(SUnsigned(n));
      case Double(text) => return Got(SDouble(text));
    }

    /** What a method that parses a value from position `i` on has to achieve. */
    ghost predicate Parsed(s: seq<byte>, spec: Res<Value>, r: Outcome<Slot>, before: seq<byte>, lo: nat)
      reads this, json
    {
      match spec
      case Ok(v, next) =>
        r.Got? && pos == next && Reads(s) && Holds(json[..], r.v, v, lo, next)
          && SameOutside(before, json[..], lo, next)
      case Unknown(at) => r == Fail(UnknownType) && pos == at && Reads(s)
      case Err(e) => r == Fail(e)
    }

    method ParseLiteral(ghost s: seq<byte>, text: seq<byte>, slot: Slot, ghost v: Value, e: Error)
      returns (r: Outcome<Slot>)
      requires Reads(s) && text != [] && NulFree(text) && Holds([], slot, v, 0, 0) && (slot == SNull || slot.SBool?)
      requires e != UnknownType && e != OutOfMemory
      modifies this`pos, this`blocks
      ensures r == Fail(OutOfMemory) ==> old(blocks) == blocks == 0
      ensures r.Got? ==> old(blocks) <= blocks + 1
      ensures r != Fail(OutOfMemory) ==> Parsed(s, Literal(s, old(pos), text, v, e), r, json[..], old(pos))
    {
      var i := 0;
      while i < |text| && json[pos + i] == text[i]
        invariant i <= |text| && pos + i <= |s| && text[..i] == s[pos..pos + i]
      {
        assert text[..i + 1] == text[..i] + [text[i]] && s[pos..pos + i + 1] == s[pos..pos + i] + [s[pos + i]];
        i := i + 1;
      }
      if i < |text| {
        assert pos + i < |s| ==> s[pos..][i] != text[i];
        return Fail(e);
      }
      assert text[..|text|] == text;
      PrefixAt(s, pos, text);
      pos := pos + |text|;
      var granted := Alloc();
      if !granted {
        return Fail(OutOfMemory);
      }
      return Got(slot);
    }

    method ParseValue(ghost s: seq<byte>, dbl: RangeTest) returns (r: Outcome<Slot>)
      requires Reads(s)
      modifies this`pos, this`blocks, json
      ensures r == Fail(OutOfMemory) ==> blocks == 0 && old(blocks) + old(pos) < |s|
      ensures r.Got? ==> old(blocks) + old(pos) <= blocks + pos
      ensures r != Fail(OutOfMemory) ==> Parsed(s, JsonParser.ParseValue(dbl, s, old(pos)), r, old(json[..]), old(pos))
      decreases |s| - pos, 2
    {
      var c := json[pos];
      if c == 110 {
        r := ParseLiteral(s, NULL_TEXT, SNull, Null, NullExpected);
      } else if c == 116 {
        r := ParseLiteral(s, TRUE_TEXT, SBool(true), Bool(true), TrueExpected);
      } else if c == 102 {
        r := ParseLiteral(s, FALSE_TEXT, SBool(false), Bool(false), FalseExpected);
      } else if c == LBRACKET || c == LBRACE {
        var granted := Alloc();
        if !granted {
          return Fail(OutOfMemory);
        }
        if c == LBRACKET {
          r := ParseArray(s, dbl);
        } else {
          r := ParseObject(s, dbl);
        }
      } else if c == QUOTE {
        var str := ParseString(s);
        if str.Fail? {
          return Fail(str.e);
        }
        var granted := Alloc();
        if !granted {
          return Fail(OutOfMemory);
        }
        return Got(SString(str.v));
      } else if c != MINUS && !IsDigit(c) {
        return Fail(UnknownType);
      } else {
        r := ParseNumber(s, dbl);
      }
    }

    method ParseArray(ghost s: seq<byte>, dbl: RangeTest) returns (r: Outcome<Slot>)
      requires Reads(s) && json[pos] == LBRACKET
      modifies this`pos, this`blocks, json
      ensures r == Fail(OutOfMemory) ==> blocks == 0 && old(blocks) + old(pos) + 1 < |s|
      ensures r.Got? ==> old(blocks) + old(pos) + 1 <= blocks + pos
      ensures r != Fail(OutOfMemory) ==> Parsed(s, JsonParser.ParseValue(dbl, s, old(pos)), r, old(json[..]), old(pos))
      decreases |s| - pos, 1
    {
      pos := pos + 1;
      SkipWhitespaces(s);
      if json[pos] == RBRACKET {
        pos := pos + 1;
        return Got(SArray([]));
      }
      var slots: seq<Slot> := [];
      ghost var elems: seq<Value> := [];
      while true
        invariant Reads(s) && old(pos) < pos && HoldsAll(json[..], slots, elems, old(pos), pos)
        invariant ArrayFrom(dbl, s, pos, elems) == JsonParser.ParseValue(dbl, s, old(pos))
        invariant SameOutside(old(json[..]), json[..], old(pos), pos)
        invariant old(blocks) + old(pos) + 1 <= blocks + pos
        decreases |s| - pos
      {
        var more;
        more, slots, elems := ParseElement(s, dbl, slots, elems, old(pos));
        if more.Fail? {
          return Fail(more.e);
        }
        if !more.v {
          return Got(SArray(slots));
        }
      }
    }

    /** What follows an element: a comma and white space, or the closing bracket. */
    method ParseSeparator(ghost s: seq<byte>, close: byte, corrupted: Error) returns (r: Outcome<bool>)
      requires Reads(s) && close != COMMA && close != NUL
      modifies this`pos
      ensures r.Got? ==> Reads(s) && pos > old(pos)
      ensures var k := SkipWs(s, old(pos));
              if At(s, k) == COMMA then r == Got(true) && pos == SkipWs(s, k + 1)
              else if At(s, k) == close then r == Got(false) && pos == k + 1
              else r == Fail(corrupted)
    {
      hide SkipWs;
      SkipWhitespaces(s);
      if json[pos] == COMMA {
        pos := pos + 1;
        SkipWhitespaces(s);
        return Got(true);
      } else if json[pos] == close {
        pos := pos + 1;
        return Got(false);
      } else {
        return Fail(corrupted);
      }
    }

    /** One pass through the loop over array elements; `Got(false)` after the closing bracket. */
    method ParseElement(ghost s: seq<byte>, dbl: RangeTest, slots: seq<Slot>, ghost elems: seq<Value>, ghost lo: nat)
      returns (r: Outcome<bool>, slots': seq<Slot>, ghost elems': seq<Value>)
      requires Reads(s) && lo < pos && HoldsAll(json[..], slots, elems, lo, pos)
      modifies this`pos, this`blocks, json
      ensures r == Fail(OutOfMemory) ==> blocks == 0 && old(blocks) + old(pos) < |s|
      ensures r.Got? ==> old(blocks) + old(pos) <= blocks + pos
      ensures r.Got? ==>
                && Reads(s) && old(pos) < pos && HoldsAll(json[..], slots', elems', lo, pos)
                && SameOutside(old(json[..]), json[..], old(pos), pos)
                && ArrayFrom(dbl, s, old(pos), elems) == if r.v then ArrayFrom(dbl, s, pos, elems')
                   else Ok(Arr(elems'), pos)
      ensures r == Fail(UnknownType) ==> Reads(s) && ArrayFrom(dbl, s, old(pos), elems) == Unknown(pos)
      ensures r.Fail? && r.e != UnknownType && r.e != OutOfMemory ==> ArrayFrom(dbl, s, old(pos), elems) == Err(r.e)
      decreases |s| - pos, 3
    {
      hide JsonParser.ParseValue, ArrayFrom, SkipWs, HoldsAll, Holds;
      ArrayPass(dbl, s, pos, elems);
      slots', elems' := slots, elems;
      ghost var before := json[..];
      var slot := ParseValue(s, dbl);
      if slot.Fail? {
        if slot.e == UnknownType && json[pos] == RBRACKET {
          return Fail(CorruptedArray), slots', elems';
        }
        return Fail(slot.e), slots', elems';
      }
      ghost var j := pos;
      ghost var v := JsonParser.ParseValue(dbl, s, old(pos)).v;
      OneMore(before, json[..], slots, elems, slot.v, v, lo, old(pos), j);
      slots', elems' := slots + [slot.v], elems + [v];
      var more := ParseSeparator(s, RBRACKET, CorruptedArray);
      if more.Got? {
        AllLater(json[..], json[..], slots', elems', lo, j, pos);
      }
      return more, slots', elems';
    }

    method ParseObject(ghost s: seq<byte>, dbl: RangeTest) returns (r: Outcome<Slot>)
      requires Reads(s) && json[pos] == LBRACE
      modifies this`pos, this`blocks, json
      ensures r == Fail(OutOfMemory) ==> blocks == 0 && old(blocks) + old(pos) + 1 < |s|
      ensures r.Got? ==> old(blocks) + old(pos) + 1 <= blocks + pos
      ensures r != Fail(OutOfMemory) ==> Parsed(s, JsonParser.ParseValue(dbl, s, old(pos)), r, old(json[..]), old(pos))
      decreases |s| - pos, 1
    {
      pos := pos + 1;
      SkipWhitespaces(s);
      if json[pos] == RBRACE {
        pos := pos + 1;
        return Got(SObject([]));
      }
      var slots: seq<SlotMember> := [];
      ghost var members: seq<Member> := [];
      while true
        invariant Reads(s) && old(pos) < pos && HoldsMembers(json[..], slots, members, old(pos), pos)
        invariant ObjectFrom(dbl, s, pos, members) == JsonParser.ParseValue(dbl, s, old(pos))
        invariant SameOutside(old(json[..]), json[..], old(pos), pos)
        invariant old(blocks) + old(pos) + 1 <= blocks + pos
        decreases |s| - pos
      {
        var more;
        more, slots, members := ParseMember(s, dbl, slots, members, old(pos));
        if more.Fail? {
          return Fail(more.e);
        }
        if !more.v {
          return Got(SObject(slots));
        }
      }
    }

    /** The name of a member and the colon after it. */
    method ParseName(ghost s: seq<byte>) returns (r: Outcome<nat>)
      requires Reads(s)
      modifies this`pos, json
      ensures match NameAt(s, old(pos))
              case Ok(name, next) =>
                && r.Got? && pos == next && Reads(s) && StringAt(json[..], r.v, name, old(pos), next)
                && SameOutside(old(json[..]), json[..], old(pos), next)
              case Err(e) => r == Fail(e)
    {
      hide StringFrom, SkipWs;
      if json[pos] != QUOTE {
        return Fail(StringExpected);
      }
      r := ParseString(s);
      if r.Got? {
        SkipWhitespaces(s);
        if json[pos] != COLON {
          return Fail(ColonExpected);
        }
        pos := pos + 1;
        SkipWhitespaces(s);
      }
    }

    /** One pass through the loop over object members; `Got(false)` after the closing brace. */
    method ParseMember(ghost s: seq<byte>, dbl: RangeTest, slots: seq<SlotMember>, ghost members: seq<Member>,
                       ghost lo: nat)
      returns (r: Outcome<bool>, slots': seq<SlotMember>, ghost members': seq<Member>)
      requires Reads(s) && lo < pos && HoldsMembers(json[..], slots, members, lo, pos)
      modifies this`pos, this`blocks, json
      ensures r == Fail(OutOfMemory) ==> blocks == 0 && old(blocks) + old(pos) < |s|
      ensures r.Got? ==> old(blocks) + old(pos) <= blocks + pos
      ensures r.Got? ==>
                && Reads(s) && old(pos) < pos && HoldsMembers(json[..], slots', members', lo, pos)
                && SameOutside(old(json[..]), json[..], old(pos), pos)
                && ObjectFrom(dbl, s, old(pos), members) == if r.v then ObjectFrom(dbl, s, pos, members')
                   else Ok(Obj(members'), pos)
      ensures r == Fail(UnknownType) ==> Reads(s) && ObjectFrom(dbl, s, old(pos), members) == Unknown(pos)
      ensures r.Fail? && r.e != UnknownType && r.e != OutOfMemory ==> ObjectFrom(dbl, s, old(pos), members) == Err(r.e)
      decreases |s| - pos, 3
    {
      hide JsonParser.ParseValue, ObjectFrom, NameAt, SkipWs, HoldsMembers, Holds, StringAt;
      ObjectPass(dbl, s, pos, members);
      slots', members' := slots, members;
      ghost var a := json[..];
      var name := ParseName(s);
      if name.Fail? {
        return Fail(name.e), slots', members';
      }
      ghost var h, b := pos, json[..];
      var slot := ParseValue(s, dbl);
      if slot.Fail? {
        if slot.e == UnknownType && json[pos] == RBRACE {
          return Fail(CorruptedObject), slots', members';
        }
        return Fail(slot.e), slots', members';
      }
      ghost var j := pos;
      ghost var m := Member(NameAt(s, old(pos)).v, JsonParser.ParseValue(dbl, s, h).v);
      OneMoreMember(a, b, json[..], slots, members, SlotMember(name.v, slot.v), m, lo, old(pos), h, h, j);
      slots', members' := slots + [SlotMember(name.v, slot.v)], members + [m];
      var more := ParseSeparator(s, RBRACE, CorruptedObject);
      if more.Got? {
        MembersLater(json[..], json[..], slots', members', lo, j, pos);
      }
      return more, slots', members';
    }
  }

  /**
   Parsing a document in place.  The result is that of `JsonParser.ParseDocument` on the text
   that the buffer had, and every string and name can still be read from the buffer.  As many
   allocations as the text has bytes are always enough.
   */
  method ParseDocument(json: array<byte>, ghost s: seq<byte>, dbl: RangeTest, root: Root, blocks: nat)
    returns (r: Outcome<Slot>, left: nat)
    requires NulFree(s) && Follows(json[..], s, 0)
    modifies json
    ensures r == Fail(OutOfMemory) ==> left == 0 && blocks < |s|
    ensures r.Got? ==> SameOutside(old(json[..]), json[..], 0, |s|)
    ensures r != Fail(OutOfMemory) ==>
              match JsonParser.ParseDocument(dbl, root, s)
              case Parsed(v) => r.Got? && Holds(json[..], r.v, v, 0, |s|)
              case Rejected(e) => r == Fail(e)
  {
    var ctx := new ParseContext(json, blocks);
    left := blocks;
    ctx.SkipWhitespaces(s);
    var start := if root == ArrayRoot then LBRACKET else LBRACE;
    if json[ctx.pos] != start {
      return Fail(if json[ctx.pos] == NUL then EmptyDocument else if root == ArrayRoot then ArrayExpected
        else ObjectExpected), left;
    }
    ghost var i := ctx.pos;
    r := ctx.ParseValue(s, dbl);
    left := ctx.blocks;
    if r.Got? {
      ghost var j := ctx.pos;
      ghost var v := JsonParser.ParseValue(dbl, s, i).v;
      ctx.SkipWhitespaces(s);
      if json[ctx.pos] != NUL {
        return Fail(TrailingSymbols), left;
      }
      HoldsLater(json[..], json[..], r.v, v, i, j, 0, |s|);
    }
  }
}

/**
 The printer as it runs: text goes through a fixed buffer that spills into a string which
 grows by reallocation.
 */
module JsonPrinter {
  import opened Bytes
  import opened JsonValue
  import opened JsonParser
  import opened JsonText

  datatype Printed = Text(json: seq<byte>) | Nothing

  /** None of the first `n` allocations is refused. */
  predicate AllGranted(grants: seq<bool>, n: nat) {
    n == 0 || (AllGranted(grants, n - 1) && n <= |grants| && grants[n - 1])
  }

  /** `grants` says which of the reallocations succeed; `used` counts those made so far. */
  class PrintContext {
    const flags: Flags
    const buffer: array<byte>
    const grants: seq<bool>
    var ident: nat
    var json: seq<byte>
    var pp: nat
    var ok: bool
    var used: nat

    constructor (flags: Flags, size: nat, grants: seq<bool>)
      requires size > 0
      ensures Valid() && fresh(buffer) && ok && ident == 0 && Written() == []
      ensures this.flags == flags && this.grants == grants
    {
      this.flags, this.grants := flags, grants;
      buffer := new byte[size];
      ident, json, pp, ok, used := 0, [], 0, true, 0;
    }

    /** There is always room for one more byte, and `ok` tells whether memory ever ran out. */
    ghost predicate Valid()
      reads this, buffer
    {
      && pp < buffer.Length
      && (ok <==> AllGranted(grants, used))
    }

    /** Everything printed so far: what has spilled and what is buffered. */
    ghost function Written(): (s: seq<byte>)
      requires Valid()
      reads this, buffer
    {
      json + buffer[..pp]
    }

    method Realloc() returns (granted: bool)
      modifies this`used
      ensures used == old(used) + 1 && (granted <==> old(used) < |grants| && grants[old(used)])
      ensures AllGranted(grants, used) <==> AllGranted(grants, old(used)) && granted
    {
      granted := used < |grants| && grants[used];
      used := used + 1;
    }

    method Flush()
      requires pp <= buffer.Length && buffer.Length > 0 && (ok <==> AllGranted(grants, used))
      modifies this`json, this`pp, this`ok, this`used
      ensures Valid() && pp == 0 && (ok ==> old(ok) && json == old(json + buffer[..pp]))
      ensures used == old(used) + 1
    {
      var granted := Realloc();
      if !granted {
        ok := false;
      } else {
        json := json + buffer[..pp];
      }
      pp := 0;
    }

    method PrintData(data: seq<byte>)
      requires Valid()
      modifies this`json, this`pp, this`ok, this`used, buffer
      ensures Valid()
      ensures ok ==> old(ok) && Written() == old(Written()) + data
    {
      if |data| < buffer.Length - pp {
        for i := 0 to |data|
          modifies buffer
          invariant buffer[..pp + i] == old(buffer[..pp]) + data[..i]
        {
          buffer[pp + i] := data[i];
        }
        pp := pp + |data|;
        assert json + (old(buffer[..pp]) + data) == json + old(buffer[..pp]) + data;
      } else {
        var granted := Realloc();
        if !granted {
          ok := false;
        } else {
          json := json + buffer[..pp] + data;
        }
        pp := 0;
      }
    }

    method PrintFill(c: byte, count: nat)
      requires Valid()
      modifies this`json, this`pp, this`ok, this`used, buffer
      ensures Valid()
      ensures ok ==> old(ok) && Written() == old(Written()) + seq(count, _ => c)
    {
      ghost var data := seq(count, _ => c);
      if count < buffer.Length - pp {
        for i := 0 to count
          modifies buffer
          invariant buffer[..pp + i] == old(buffer[..pp]) + data[..i]
        {
          buffer[pp + i] := c;
        }
        pp := pp + count;
        assert json + (old(buffer[..pp]) + data) == json + old(buffer[..pp]) + data;
      } else {
        var granted := Realloc();
        if !granted {
          ok := false;
        } else {
          json := json + buffer[..pp] + seq(count, _ => c);
        }
        pp := 0;
      }
    }

    method PrintChar(c: byte)
      requires Valid()
      modifies this`json, this`pp, this`ok, this`used, buffer
      ensures Valid()
      ensures ok ==> old(ok) && Written() == old(Written()) + [c]
    {
      buffer[pp] := c;
      pp := pp + 1;
      assert buffer[..pp] == old(buffer[..pp]) + [c];
      if pp == buffer.Length {
        Flush();
      }
    }

    /** The string that is handed to the caller, or nothing if any allocation was refused. */
    method Finish() returns (r: Printed)
      requires Valid()
      modifies this`json, this`pp, this`ok, this`used
      ensures Valid() && (r.Text? <==> AllGranted(grants, used))
      ensures r.Text? ==> old(ok) && r.json == old(Written())
    {
      Flush();
      r := if ok then Text(json) else Nothing;
    }

    method PrintIdent()
      requires Valid()
      modifies this`json, this`pp, this`ok, this`used, buffer
      ensures Valid()
      ensures ok ==> old(ok) && Written() == old(Written()) + Ident(flags, ident)
    {
      if !flags.compact {
        if flags.crlf {
          PrintData([CR, LF]);
        } else {
          PrintChar(LF);
        }
        PrintFill(SPACE, ident);
      }
    }

    method PrintString(s: seq<byte>)
      requires Valid()
      modifies this`json, this`pp, this`ok, this`used, buffer
      ensures Valid()
      ensures ok ==> old(ok) && Written() == old(Written()) + JsonText.PrintString(s)
    {
      PrintChar(QUOTE);
      ghost var all := old(Written()) + [QUOTE] + PrintBytes(s);
      for i := 0 to |s|
        modifies this`json, this`pp, this`ok, this`used, buffer
        invariant Valid() && (ok ==> old(ok) && Written() + PrintBytes(s[i..]) == all)
      {
        ghost var before := Written();
        var c := s[i];
        var e := EscapeLetter(c);
        if e == 0 {
          PrintChar(c);
        } else if e != LOWER_U {
          PrintData([BACKSLASH, e]);
        } else {
          PrintData([BACKSLASH, LOWER_U, ZERO, ZERO, HexDigit(c / 16), HexDigit(c % 16)]);
        }
        ConcatAssoc(before, PrintByte(c), PrintBytes(s[i + 1..]));
        assert s[i..][1..] == s[i + 1..];
      }
      PrintChar(QUOTE);
      ConcatEmpty(all);
      Enclosed(old(Written()), [QUOTE], PrintBytes(s), [], [QUOTE]);
    }

    method PrintArray(elems: seq<Value>)
      requires Valid()
      modifies this, buffer
      ensures Valid() && ident == old(ident)
      ensures ok ==> old(ok) && Written() == old(Written()) + PrintValue(Arr(elems), flags, ident)
      decreases elems, 2
    {
      hide PrintValue, Ident, JsonText.PrintElems;
      PrintChar(LBRACKET);
      ident := ident + IDENT_STEP;
      PrintAllElems(elems);
      ident := ident - IDENT_STEP;
      PrintIdent();
      PrintChar(RBRACKET);
      BracketText(elems, [], flags, ident);
      Enclosed(old(Written()), [LBRACKET], JsonText.PrintElems(elems, flags, ident + IDENT_STEP), Ident(flags, ident),
        [RBRACKET]);
    }

    method PrintAllElems(elems: seq<Value>)
      requires Valid()
      modifies this, buffer
      ensures Valid() && ident == old(ident)
      ensures ok ==> old(ok) && Written() == old(Written()) + JsonText.PrintElems(elems, flags, ident)
      decreases elems, 1
    {
      hide PrintValue, Ident;
      ghost var all := old(Written()) + JsonText.PrintElems(elems, flags, ident);
      var i := 0;
      while i < |elems| && ok
        invariant i <= |elems| && Valid() && ident == old(ident)
        invariant ok ==> old(ok) && Written() + JsonText.PrintElems(elems[i..], flags, ident) == all
      {
        PrintElem(elems, i);
        i := i + 1;
      }
      ConcatEmpty(Written());
    }

    /** One pass through the loop over the elements. */
    method PrintElem(elems: seq<Value>, i: nat)
      requires Valid() && i < |elems|
      modifies this, buffer
      ensures Valid() && ident == old(ident)
      ensures ok ==> old(ok) && Written() + PrintElems(elems[i + 1..], flags, ident)
                             == old(Written()) + PrintElems(elems[i..], flags, ident)
      decreases elems, 0
    {
      hide PrintValue, Ident;
      PrintIdent();
      Print(elems[i]);
      if i + 1 < |elems| {
        PrintChar(COMMA);
      }
      assert elems[i..][1..] == elems[i + 1..];
      ghost var x, v := Ident(flags, ident), PrintValue(elems[i], flags, ident);
      ghost var sep := if i + 1 < |elems| then [COMMA] else [];
      FourPieces(old(Written()), x, v, sep, PrintElems(elems[i + 1..], flags, ident));
    }

    method PrintObject(members: seq<Member>)
      requires Valid()
      modifies this, buffer
      ensures Valid() && ident == old(ident)
      ensures ok ==> old(ok) && Written() == old(Written()) + PrintValue(Obj(members), flags, ident)
      decreases members, 2
    {
      hide PrintValue, Ident, JsonText.PrintMembers;
      PrintChar(LBRACE);
      ident := ident + IDENT_STEP;
      PrintAllMembers(members);
      ident := ident - IDENT_STEP;
      PrintIdent();
      PrintChar(RBRACE);
      BracketText([], members, flags, ident);
      Enclosed(old(Written()), [LBRACE], JsonText.PrintMembers(members, flags, ident + IDENT_STEP),
        Ident(flags, ident), [RBRACE]);
    }

    method PrintAllMembers(members: seq<Member>)
      requires Valid()
      modifies this, buffer
      ensures Valid() && ident == old(ident)
      ensures ok ==> old(ok) && Written() == old(Written()) + JsonText.PrintMembers(members, flags, ident)
      decreases members, 1
    {
      hide PrintValue, Ident;
      ghost var all := old(Written()) + JsonText.PrintMembers(members, flags, ident);
      var i := 0;
      while i < |members| && ok
        invariant i <= |members| && Valid() && ident == old(ident)
        invariant ok ==> old(ok) && Written() + JsonText.PrintMembers(members[i..], flags, ident) == all
      {
        PrintMember(members, i);
        i := i + 1;
      }
      ConcatEmpty(Written());
    }

    method PrintMember(members: seq<Member>, i: nat)
      requires Valid() && i < |members|
      modifies this, buffer
      ensures Valid() && ident == old(ident)
      ensures ok ==> old(ok) && Written() + PrintMembers(members[i + 1..], flags, ident)
                             == old(Written()) + PrintMembers(members[i..], flags, ident)
      decreases members, 0
    {
      hide PrintValue, Ident, JsonText.PrintString, Colon;
      PrintName(members[i].name);
      Print(members[i].value);
      if i + 1 < |members| {
        PrintChar(COMMA);
      }
      assert members[i..][1..] == members[i + 1..];
      ghost var x := Ident(flags, ident) + JsonText.PrintString(members[i].name) + Colon(flags);
      ghost var sep := if i + 1 < |members| then [COMMA] else [];
      FourPieces(old(Written()), x, PrintValue(members[i].value, flags, ident), sep,
        PrintMembers(members[i + 1..], flags, ident));
    }

    method PrintName(name: seq<byte>)
      requires Valid()
      modifies this, buffer
      ensures Valid() && ident == old(ident)
      ensures ok ==> old(ok) && Written()
                             == old(Written()) + (Ident(flags, ident) + JsonText.PrintString(name) + Colon(flags))
    {
      hide Ident, JsonText.PrintString;
      PrintIdent();
      PrintString(name);
      PrintChar(COLON);
      if !flags.compact {
        PrintChar(SPACE);
      }
      ghost var x, y := Ident(flags, ident), JsonText.PrintString(name);
      assert old(Written()) + x + y + [COLON] + [SPACE] == old(Written()) + (x + y + [COLON, SPACE]);
      assert old(Written()) + x + y + [COLON] == old(Written()) + (x + y + [COLON]);
    }

    method Print(v: Value)
      requires Valid()
      modifies this, buffer
      ensures Valid() && ident == old(ident)
      ensures ok ==> old(ok) && Written() == old(Written()) + PrintValue(v, flags, ident)
      decreases v, 0
    {
      match v
      case Obj(members) => PrintObject(members);
      case Arr(elems) => PrintArray(elems);
      case Str(s) => PrintString(s);
      case Null => PrintData(NULL_TEXT);
      case Bool(b) => PrintData(if b then TRUE_TEXT else FALSE_TEXT);
      case Signed(k) => PrintData(PrintInt(k));
      case Unsigned(k) => PrintData(PrintInt(k));
      case Double(text) => PrintData(flags.double(text));
    }
  }

  lemma BracketText(elems: seq<Value>, members: seq<Member>, f: Flags, n: nat)
    ensures PrintValue(Arr(elems), f, n)
         == [LBRACKET] + PrintElems(elems, f, n + IDENT_STEP) + Ident(f, n) + [RBRACKET]
    ensures PrintValue(Obj(members), f, n)
         == [LBRACE] + PrintMembers(members, f, n + IDENT_STEP) + Ident(f, n) + [RBRACE]
  {
  }

  lemma Enclosed(w: seq<byte>, x: seq<byte>, y: seq<byte>, i: seq<byte>, z: seq<byte>)
    ensures w + x + y + i + z == w + (x + y + i + z)
    ensures i == [] ==> x + y + i + z == x + y + z && w + x + y + i + z == w + x + y + z
  {
    ConcatEmpty(x + y);
    ConcatEmpty(w + x + y);
  }

  lemma FourPieces(w: seq<byte>, x: seq<byte>, v: seq<byte>, sep: seq<byte>, y: seq<byte>)
    ensures w + x + v + sep + y == w + (x + v + sep + y)
  {
  }

  /**
   Printing a document, with any buffer size: nothing if one of the reallocations is refused,
   otherwise the whole text, which then parses back to the document.
   */
  method PrintDocument(dbl: RangeTest, v: Value, flags: Flags, size: nat, grants: seq<bool>)
    returns (r: Printed, used: nat)
    requires size > 0 && (v.Arr? || v.Obj?)
    ensures r.Text? <==> AllGranted(grants, used)
    ensures r.Text? ==> r.json == PrintValue(v, flags, 0)
    ensures r.Text? && Printable(v) ==>
              && NulFree(r.json)
              && ParseDocument(dbl, if v.Arr? then ArrayRoot else ObjectRoot, r.json) == Parsed(Reread(v))
  {
    var ctx := new PrintContext(flags, size, grants);
    ctx.Print(v);
    r := ctx.Finish();
    used := ctx.used;
    if Printable(v) {
      ParseOfPrinted(dbl, v, flags);
    }
  }
}

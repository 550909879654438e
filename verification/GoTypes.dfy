/**
 Type names of message declarations: the Go type, element width and array length that GoTypeInfo of
 src/mavlink/generator/generator.go reads off them, and the name that enters the CRC_EXTRA hash.
 */
module GoTypes {
  import opened Bytes
  import opened Decimals
  import opened MavlinkLayout

  /** c2goPrimitive; it panics on any other name. */
  function GoPrimitive(c: string): Option<string> {
    if c == "uint8_t" then Some("uint8") else if c == "uint16_t" then Some("uint16")
    else if c == "uint32_t" then Some("uint32") else if c == "uint64_t" then Some("uint64")
    else if c == "int8_t" then Some("int8") else if c == "int16_t" then Some("int16")
    else if c == "int32_t" then Some("int32") else if c == "int64_t" then Some("int64")
    else if c == "char" then Some("byte")
    else if c == "float" then Some("float32")
    else if c == "double" then Some("float64")
    else if c == "uint8_t_mavlink_version" then Some("uint8")
    else None
  }

  datatype Info = Info(go: string, bits: int, arrayLen: int) | Bad | Panic

  predicate EndsWith(s: string, t: string) {
    |s| >= |t| && s[|s| - |t|..] == t
  }

  /** The width is the number that starts at the first of 8, 1, 3 and 6 in the Go name. */
  function BitsOfGo(t: string): Option<int> {
    if EndsWith(t, "byte") then Some(8) else Atoi(t[IndexAny(t, "8136")..])
  }

  /** What stands behind the first closing bracket, all of it if there is none. */
  function BehindBracket(name: string): string {
    var i := IndexAny(name, "]");
    if i == |name| then name else name[i + 1..]
  }

  /** Go name, element width and array length; an unknown type, or a declaration that ends in "[", panics. */
  function GoTypeInfo(s: string): Info {
    var idx := IndexAny(s, "[");
    match GoPrimitive(s[..idx])
    case None => Panic
    case Some(go) =>
      if idx + 1 == |s| then Panic
      else
        var name := s[idx..] + go;
        var len := if idx == |s| then Some(0) else Atoi(s[idx + 1..|s| - 1]);
        var bits := if EndsWith(name, "byte") then Some(8) else BitsOfGo(BehindBracket(name));
        match (len, bits)
        case (Some(n), Some(w)) => Info(name, w, n)
        case _ => Bad
  }

  /** The type name as hashed: without an array part, and the version type under its plain name if it has none. */
  function HashedType(s: string): string {
    var t := if s == "uint8_t_mavlink_version" then "uint8_t" else s;
    t[..IndexAny(t, "[")]
  }

  // ---------- the names of the modelled types ----------

  function CName(c: CType): string {
    match c
    case Char => "char"
    case Int8 => "int8_t"
    case UInt8 => "uint8_t"
    case MavlinkVersion => "uint8_t_mavlink_version"
    case Int16 => "int16_t"
    case UInt16 => "uint16_t"
    case Int32 => "int32_t"
    case UInt32 => "uint32_t"
    case Float => "float"
    case Int64 => "int64_t"
    case UInt64 => "uint64_t"
    case Double => "double"
  }

  /** The declared type of a field. */
  function TypeText(f: Field): string {
    if f.arrayLen > 0 then CName(f.ctype) + "[" + Decimal(f.arrayLen) + "]" else CName(f.ctype)
  }

  lemma NoBracket(c: CType)
    ensures forall x <- CName(c) :: x !in "["
    ensures CName(c) != ""
  {
  }

  lemma NotByte(t: string)
    requires t != "" && t[|t| - 1] != 'e'
    ensures !EndsWith(t, "byte")
  {
    if |t| >= 4 {
      assert t[|t| - 4..][3] == t[|t| - 1];
    }
  }

  lemma Numerals()
    ensures Atoi("8") == Some(8) && Atoi("16") == Some(16) && Atoi("32") == Some(32) && Atoi("64") == Some(64)
  {
    assert "8"[..0] == "";
    assert "16"[..1] == "1" && "1"[..0] == "";
    assert "32"[..1] == "3" && "3"[..0] == "";
    assert "64"[..1] == "6" && "6"[..0] == "";
    assert Digits("1") == 1 && Digits("3") == 3 && Digits("6") == 6;
  }

  lemma NarrowWidths()
    ensures BitsOfGo("byte") == Some(8)
    ensures BitsOfGo("uint8") == Some(8) && BitsOfGo("int8") == Some(8)
    ensures BitsOfGo("uint16") == Some(16) && BitsOfGo("int16") == Some(16)
  {
    hide BitsOfGo, Atoi;
    ByteWidth();
    Numerals();
    Named("uint8", "uint", "8", 8);
    Named("int8", "int", "8", 8);
    Named("uint16", "uint", "16", 16);
    Named("int16", "int", "16", 16);
  }

  lemma MiddleWidths()
    ensures BitsOfGo("uint32") == Some(32) && BitsOfGo("int32") == Some(32) && BitsOfGo("float32") == Some(32)
  {
    hide BitsOfGo, Atoi;
    Numerals();
    Named("uint32", "uint", "32", 32);
    Named("int32", "int", "32", 32);
    Named("float32", "float", "32", 32);
  }

  lemma WideWidths()
    ensures BitsOfGo("uint64") == Some(64) && BitsOfGo("int64") == Some(64) && BitsOfGo("float64") == Some(64)
  {
    hide BitsOfGo, Atoi;
    Numerals();
    Named("uint64", "uint", "64", 64);
    Named("int64", "int", "64", 64);
    Named("float64", "float", "64", 64);
  }

  lemma ByteWidth()
    ensures BitsOfGo("byte") == Some(8)
  {
  }

  lemma Named(t: string, p: string, num: string, n: nat)
    requires t == p + num && (forall x <- p :: x !in "8136")
    requires num != "" && num[0] in "8136" && num[|num| - 1] != 'e' && Atoi(num) == Some(n)
    ensures BitsOfGo(t) == Some(n)
  {
    hide Atoi;
    assert t == p + [num[0]] + num[1..];
    IndexAfter(p, num[0], num[1..], "8136");
    assert t[|p|..] == num;
    NotByte(t);
  }

  lemma PrimitiveWidth(c: CType)
    ensures var go := GoPrimitive(CName(c)); go.Some? && BitsOfGo(go.value) == Some(c.BitSize())
  {
    hide BitsOfGo;
    NarrowWidths();
    MiddleWidths();
    WideWidths();
  }

  lemma BracketSkipped(p: string, go: string, name: string)
    requires name == p + [']'] + go && ']' !in p
    ensures BehindBracket(name) == go
  {
    IndexAfter(p, ']', go, "]");
  }

  lemma NoBracketSkipped(go: string)
    requires ']' !in go
    ensures BehindBracket(go) == go
  {
    IndexNone(go, "]");
  }

  lemma EndKept(p: string, go: string)
    requires |go| >= 4
    ensures EndsWith(p + go, "byte") <==> EndsWith(go, "byte")
  {
    assert (p + go)[|p + go| - 4..] == go[|go| - 4..];
  }

  lemma GoNames(c: CType)
    ensures var go := GoPrimitive(CName(c)); go.Some? && |go.value| >= 4 && ']' !in go.value
  {
  }

  lemma NoClosing(n: string)
    requires DigitsOnly(n)
    ensures ']' !in ['['] + n
  {
  }

  /** The declared type gives the field's element width and array length. */
  lemma TypeInfoIsField(f: Field)
    ensures var r := GoTypeInfo(TypeText(f));
            r.Info? && r.bits == f.ctype.BitSize() && r.arrayLen == f.arrayLen
  {
    hide BitsOfGo, GoPrimitive, CName, Atoi, Decimal, EndsWith, BehindBracket;
    var c, s := CName(f.ctype), TypeText(f);
    NoBracket(f.ctype);
    PrimitiveWidth(f.ctype);
    GoNames(f.ctype);
    var go := GoPrimitive(c).value;
    BitsOfByte(go);
    if f.arrayLen > 0 {
      var n := Decimal(f.arrayLen);
      AtoiOfDecimal(f.arrayLen);
      assert s == c + ['['] + (n + "]");
      IndexAfter(c, '[', n + "]", "[");
      assert s[..|c|] == c && s[|c| + 1..|s| - 1] == n;
      NoClosing(n);
      assert s[|c|..] + go == (['['] + n) + [']'] + go;
      BracketSkipped(['['] + n, go, s[|c|..] + go);
      EndKept(s[|c|..], go);
    } else {
      IndexNone(c, "[");
      assert s[..|s|] == s && s[|s|..] + go == go;
      NoBracketSkipped(go);
    }
  }

  lemma BitsOfByte(go: string)
    ensures EndsWith(go, "byte") ==> BitsOfGo(go) == Some(8)
  {
  }

  /** The hashed name is the declared one without the array part; a lone version byte goes under its plain name. */
  lemma HashedTypeIs(f: Field)
    ensures HashedType(TypeText(f)) ==
            if f.ctype.MavlinkVersion? && f.arrayLen == 0 then "uint8_t" else CName(f.ctype)
  {
    hide CName, Decimal;
    var c, s := CName(f.ctype), TypeText(f);
    NoBracket(f.ctype);
    VersionName(f.ctype);
    if f.arrayLen > 0 {
      var n := Decimal(f.arrayLen);
      assert s == c + ['['] + (n + "]");
      IndexAfter(c, '[', n + "]", "[");
      LastBracket(s);
      assert s[..|c|] == c;
    } else {
      IndexNone(c, "[");
      IndexNone("uint8_t", "[");
      assert c[..|c|] == c && "uint8_t"[..7] == "uint8_t";
    }
  }

  lemma VersionName(c: CType)
    ensures CName(c) == "uint8_t_mavlink_version" <==> c.MavlinkVersion?
  {
  }

  lemma LastBracket(s: string)
    requires s != "" && s[|s| - 1] == ']'
    ensures s != "uint8_t_mavlink_version"
  {
    assert "uint8_t_mavlink_version"[22] == 'n';
  }

  /** An integer type is named after its sign and width; the other four names are fixed. */
  lemma NameTellsType(c: CType)
    ensures c in {Int8, Int16, Int32, Int64} ==> CName(c) == "int" + Decimal(c.BitSize()) + "_t"
    ensures c in {UInt8, UInt16, UInt32, UInt64} ==> CName(c) == "uint" + Decimal(c.BitSize()) + "_t"
    ensures c == Char ==> CName(c) == "char"
    ensures c == MavlinkVersion ==> CName(c) == "uint8_t_mavlink_version"
    ensures c == Float ==> CName(c) == "float"
    ensures c == Double ==> CName(c) == "double"
  {
    hide Decimal;
    WidthTexts();
  }

  lemma WidthTexts()
    ensures Decimal(8) == "8" && Decimal(16) == "16" && Decimal(32) == "32" && Decimal(64) == "64"
  {
    assert Decimal(1) == "1" && Decimal(3) == "3" && Decimal(6) == "6";
  }
}

/**
 * The string and arithmetic helpers of the `util` package: the 32-bit FNV-1
 * hash rendered as hex, the environment lookups with fallbacks, the `$VAR`
 * substitution applied to configuration files, and the panic guard.
 * The process environment is passed in as a map (a key that is absent is unset).
 */
module Util {
  import opened Wrappers
  import Strconv

  newtype byte = x: int | 0 <= x < 256

  // ---------------------------------------------------------------------------
  // Strings as bytes

  /** The UTF-8 encoding of one Unicode scalar value. */
  function Utf8Char(c: char): (bs: seq<byte>)
    ensures 1 <= |bs| <= 4
    ensures |bs| == 1 <==> (c as int) < 0x80
    ensures |bs| == 1 ==> bs[0] as int == c as int
  {
    var cp := c as int;
    if cp < 0x80 then [cp as byte]
    else if cp < 0x800 then [(0xC0 + cp / 64) as byte, (0x80 + cp % 64) as byte]
    else if cp < 0x10000 then
      [(0xE0 + cp / 4096) as byte, (0x80 + (cp / 64) % 64) as byte, (0x80 + cp % 64) as byte]
    else
      [(0xF0 + cp / 262144) as byte, (0x80 + (cp / 4096) % 64) as byte,
       (0x80 + (cp / 64) % 64) as byte, (0x80 + cp % 64) as byte]
  }

  /** The bytes of a Go string holding `s`. */
  function Utf8(s: string): (bs: seq<byte>)
    ensures |bs| >= |s|
  {
    if s == [] then [] else Utf8Char(s[0]) + Utf8(s[1..])
  }

  // ---------------------------------------------------------------------------
  // Hash32 (util/util.go): FNV-1, 32 bits, printed with %x

  const FnvOffset32: bv32 := 2166136261
  const FnvPrime32: bv32 := 16777619

  /** One FNV-1 round: multiply by the prime (mod 2^32), then xor in the byte. */
  function FnvStep(h: bv32, b: byte): bv32 {
    (h * FnvPrime32) ^ (b as bv32)
  }

  function Fnv1From(h: bv32, bs: seq<byte>): bv32
    decreases |bs|
  {
    if bs == [] then h else Fnv1From(FnvStep(h, bs[0]), bs[1..])
  }

  /** The 32-bit FNV-1 hash of `bs`. */
  function Fnv1(bs: seq<byte>): bv32 {
    Fnv1From(FnvOffset32, bs)
  }

  /** `h.Sum(nil)`: the four bytes of the hash, most significant first. */
  function BigEndian(h: bv32): (bs: seq<byte>)
    ensures |bs| == 4
  {
    var v := h as int;
    [(v / 0x100_0000) as byte, ((v / 0x1_0000) % 256) as byte, ((v / 256) % 256) as byte, (v % 256) as byte]
  }

  /** The number four big-endian bytes stand for. */
  function FromBigEndian(bs: seq<byte>): nat
    requires |bs| == 4
  {
    bs[0] as int * 0x100_0000 + bs[1] as int * 0x1_0000 + bs[2] as int * 256 + bs[3] as int
  }

  predicate IsHexDigit(c: char) { '0' <= c <= '9' || 'a' <= c <= 'f' }

  /** The lowercase hex digit of a value below 16. */
  function HexChar(v: nat): (c: char)
    requires v < 16
    ensures IsHexDigit(c)
  {
    if v < 10 then ('0' as int + v) as char else ('a' as int + v - 10) as char
  }

  function HexValue(c: char): (v: nat)
    requires IsHexDigit(c)
    ensures v < 16 && HexChar(v) == c
  {
    if '0' <= c <= '9' then c as int - '0' as int else c as int - 'a' as int + 10
  }

  /** `%x` of one byte: two lowercase hex digits. */
  function HexByte(b: byte): (s: string)
    ensures |s| == 2 && IsHexDigit(s[0]) && IsHexDigit(s[1])
  {
    [HexChar((b as int) / 16), HexChar((b as int) % 16)]
  }

  /** `%x` of a byte slice: each byte as two lowercase hex digits, in order. */
  function HexString(bs: seq<byte>): (s: string)
    ensures |s| == 2 * |bs|
    ensures forall i :: 0 <= i < |s| ==> IsHexDigit(s[i])
  {
    if bs == [] then [] else HexByte(bs[0]) + HexString(bs[1..])
  }

  /** The byte written by two hex digits. */
  function ByteOfHex(hi: char, lo: char): byte
    requires IsHexDigit(hi) && IsHexDigit(lo)
  {
    (HexValue(hi) * 16 + HexValue(lo)) as byte
  }

  /** Reads text written by `HexString` back into bytes. */
  function ParseHex(s: string): Option<seq<byte>>
    decreases |s|
  {
    if s == [] then Some([])
    else if |s| == 1 || !IsHexDigit(s[0]) || !IsHexDigit(s[1]) then None
    else
      match ParseHex(s[2..])
      case None => None
      case Some(rest) => Some([ByteOfHex(s[0], s[1])] + rest)
  }

  lemma HexByteRoundTrip(b: byte)
    ensures ByteOfHex(HexByte(b)[0], HexByte(b)[1]) == b
  {
    var v := b as int;
    assert HexValue(HexChar(v / 16)) == v / 16;
    assert HexValue(HexChar(v % 16)) == v % 16;
  }

  /** Round trip: hex text decodes back to the bytes it was written from. */
  lemma {:induction false} ParseHexString(bs: seq<byte>)
    ensures ParseHex(HexString(bs)) == Some(bs)
  {
    if bs != [] {
      var s := HexString(bs);
      assert s[..2] == HexByte(bs[0]) && s[2..] == HexString(bs[1..]);
      HexByteRoundTrip(bs[0]);
      ParseHexString(bs[1..]);
      assert bs == [bs[0]] + bs[1..];
    }
  }

  /** Round trip: the four bytes of `Sum` put back together give the hash. */
  lemma BigEndianRoundTrip(h: bv32)
    ensures FromBigEndian(BigEndian(h)) == h as int
  {
    var v := h as int;
    DigitsOf32(v);
  }

  lemma DigitsOf32(v: int)
    requires 0 <= v < 0x1_0000_0000
    ensures v / 0x100_0000 < 256
    ensures (v / 0x100_0000) * 0x100_0000 + ((v / 0x1_0000) % 256) * 0x1_0000 + ((v / 256) % 256) * 256 + v % 256 == v
  {
    var c := v / 256;
    var b := c / 256;
    assert v / 0x1_0000 == b;
    assert v / 0x100_0000 == b / 256;
  }

  /**
   * `Hash32(s)`: the FNV-1 hash of the UTF-8 bytes of `s`, written as the hex
   * digits of its four big-endian bytes: always 8 lowercase hex digits.
   */
  method Hash32(s: string) returns (r: string)
    ensures r == HexString(BigEndian(Fnv1(Utf8(s))))
    ensures |r| == 8 && forall i :: 0 <= i < |r| ==> IsHexDigit(r[i])
  {
    var bytes := Utf8(s);
    var h := FnvOffset32;
    var i := 0;
    while i < |bytes|
      invariant 0 <= i <= |bytes|
      invariant Fnv1From(h, bytes[i..]) == Fnv1(bytes)
    {
      h := FnvStep(h, bytes[i]);
      i := i + 1;
    }
    r := HexString(BigEndian(h));
  }

  /** The hex text of `Hash32` decodes back to exactly the 32-bit FNV-1 value. */
  lemma Hash32Decodes(s: string)
    ensures var r := HexString(BigEndian(Fnv1(Utf8(s))));
            ParseHex(r).Some? && |ParseHex(r).value| == 4 &&
            FromBigEndian(ParseHex(r).value) == Fnv1(Utf8(s)) as int
  {
    ParseHexString(BigEndian(Fnv1(Utf8(s))));
    BigEndianRoundTrip(Fnv1(Utf8(s)));
  }

  /** The value the package's tests pin: `Hash32("hej") == "368ad1fa"`. */
  lemma Hash32Hej()
    ensures HexString(BigEndian(Fnv1(Utf8("hej")))) == "368ad1fa"
  {
    Utf8Ascii3('h', 'e', 'j');
    FnvHej();
    HexHej();
  }

  lemma Utf8Ascii3(a: char, b: char, c: char)
    requires (a as int) < 0x80 && (b as int) < 0x80 && (c as int) < 0x80
    ensures Utf8([a, b, c]) == [a as int as byte, b as int as byte, c as int as byte]
  {
    assert [c][1..] == [];
    assert Utf8([c]) == [c as int as byte];
    assert [b, c][1..] == [c];
    assert Utf8([b, c]) == [b as int as byte, c as int as byte];
    assert [a, b, c][1..] == [b, c];
  }

  lemma FnvHej()
    ensures Fnv1([0x68, 0x65, 0x6a]) == 0x368ad1fa
  {
    var bs: seq<byte> := [0x68, 0x65, 0x6a];
    assert FnvStep(FnvOffset32, 0x68) == 0x50c5d77;
    assert FnvStep(0x50c5d77, 0x65) == 0x69772230;
    assert FnvStep(0x69772230, 0x6a) == 0x368ad1fa;
    assert bs[1..] == [0x65, 0x6a] && bs[1..][1..] == [0x6a] && bs[1..][1..][1..] == [];
  }

  lemma HexBytesHej()
    ensures HexByte(0x36) == "36" && HexByte(0x8a) == "8a" && HexByte(0xd1) == "d1" && HexByte(0xfa) == "fa"
  {
  }

  lemma HexHej()
    ensures HexString(BigEndian(0x368ad1fa)) == "368ad1fa"
  {
    var bs: seq<byte> := [0x36, 0x8a, 0xd1, 0xfa];
    assert BigEndian(0x368ad1fa) == bs;
    HexBytesHej();
    assert bs[1..] == [0x8a, 0xd1, 0xfa] && bs[2..] == [0xd1, 0xfa] && bs[3..] == [0xfa];
    assert HexString(bs[3..]) == "fa";
    assert HexString(bs[2..]) == "d1fa";
    assert HexString(bs[1..]) == "8ad1fa";
  }

  // ---------------------------------------------------------------------------
  // PanicOnError

  datatype Outcome = Continue | Panic(msg: string)

  /**
   * `PanicOnError(msg, err)`: panics exactly when `err` is non-nil. The logger
   * joins its two operands as `fmt.Sprint` does, and since `msg` is a string
   * no space goes between them: the message is `msg` followed by the error text.
   */
  function PanicOnError(msg: string, err: Option<string>): (o: Outcome)
    ensures o.Panic? <==> err.Some?
    ensures o.Panic? ==> o.msg == msg + err.value && msg <= o.msg
  {
    if err.Some? then Panic(msg + err.value) else Continue
  }

  // ---------------------------------------------------------------------------
  // Environment lookups

  /** `os.Getenv(key)`: the value, or "" when the variable is unset. */
  function LookupEnv(env: map<string, string>, key: string): string {
    if key in env then env[key] else ""
  }

  /** `Getenv(key, fallback)`: the variable's value unless it is unset or empty. */
  function Getenv(env: map<string, string>, key: string, fallback: string): (r: string)
    ensures key in env && env[key] != "" ==> r == env[key]
    ensures key !in env ==> r == fallback
    ensures key in env && env[key] == "" ==> r == fallback
  {
    var s := LookupEnv(env, key);
    if s != "" then s else fallback
  }

  /** `GetenvInt(key, fallback)`: the variable parsed by `strconv.Atoi`, or the fallback on any error. */
  function GetenvInt(env: map<string, string>, key: string, fallback: int): (r: int)
    ensures Strconv.Atoi(LookupEnv(env, key)).err == Strconv.NoError ==> r == Strconv.Atoi(LookupEnv(env, key)).value
    ensures Strconv.Atoi(LookupEnv(env, key)).err != Strconv.NoError ==> r == fallback
    ensures key !in env ==> r == fallback
  {
    var p := Strconv.Atoi(LookupEnv(env, key));
    if p.err == Strconv.NoError then p.value else fallback
  }

  /** An int64 written into the environment with `Itoa` is what `GetenvInt` reads back. */
  lemma GetenvIntItoa(env: map<string, string>, key: string, n: int, fallback: int)
    requires Strconv.MinInt64 <= n <= Strconv.MaxInt64
    ensures GetenvInt(env[key := Strconv.Itoa(n)], key, fallback) == n
  {
    Strconv.AtoiItoa(n);
  }

  /** The cases of the package's tests: "abc" and "" fall back, "123" parses. */
  lemma GetenvIntExamples()
    ensures GetenvInt(map["notint" := "abc"], "notint", 111) == 111
    ensures GetenvInt(map["empty" := ""], "empty", 222) == 222
    ensures GetenvInt(map["anint" := "123"], "anint", 111) == 123
  {
    assert Strconv.DigitRun("bc") == 0;
    assert Strconv.DigitRun("abc") == 0;
    Strconv.AtoiItoa(123);
    assert Strconv.Itoa(123) == "123";
  }

  // ---------------------------------------------------------------------------
  // $VAR substitution (ReadFileEnvsubst)

  /** The character class of `envPattern`: `[A-Z_]`. */
  predicate IsNameChar(c: char) { 'A' <= c <= 'Z' || c == '_' }

  /** The length of the longest prefix of `s` in `[A-Z_]`. */
  function NameRun(s: string): (n: nat)
    ensures n <= |s|
    ensures forall i :: 0 <= i < n ==> IsNameChar(s[i])
    ensures n < |s| ==> !IsNameChar(s[n])
  {
    if s == [] || !IsNameChar(s[0]) then 0 else 1 + NameRun(s[1..])
  }

  /**
   * `envPattern.ReplaceAllStringFunc(s, f)` with `envPattern = \$[A-Z_]+`:
   * scanning left to right, each `$` followed by at least one name character is
   * a match that takes the longest run of name characters; it is replaced by
   * `lookup` of the name (the `$` stripped). Everything else is copied.
   */
  function Substitute(lookup: string -> string, s: string): string
    decreases |s|
  {
    if s == [] then []
    else if s[0] == '$' && |s| > 1 && IsNameChar(s[1]) then
      var n := NameRun(s[1..]);
      lookup(s[1..1 + n]) + Substitute(lookup, s[1 + n..])
    else [s[0]] + Substitute(lookup, s[1..])
  }

  /** The substitution `ReadFileEnvsubst` applies to the file's text. */
  function Envsubst(env: map<string, string>, text: string): string {
    Substitute(name => LookupEnv(env, name), text)
  }

  /** Text without a `$` is copied unchanged. */
  lemma {:induction false} SubstituteNoDollar(lookup: string -> string, s: string)
    requires '$' !in s
    ensures Substitute(lookup, s) == s
  {
    if s != [] {
      SubstituteNoDollar(lookup, s[1..]);
    }
  }

  /**
   * Round trip: replacing each match by `$` and its own name restores the text,
   * so every match is a `$` with a maximal name and nothing outside the matches changes.
   */
  lemma {:induction false} SubstituteIdentity(s: string)
    ensures Substitute(name => "$" + name, s) == s
  {
    if s != [] {
      if s[0] == '$' && |s| > 1 && IsNameChar(s[1]) {
        var n := NameRun(s[1..]);
        SubstituteIdentity(s[1 + n..]);
        MatchStep(name => "$" + name, s, n, s[1..1 + n], s[1 + n..]);
        assert s == "$" + s[1..1 + n] + s[1 + n..];
      } else {
        SubstituteIdentity(s[1..]);
        CopyStep(name => "$" + name, s, s[1..]);
        assert s == [s[0]] + s[1..];
      }
    }
  }

  lemma {:induction false} NameRunAppend(a: string, b: string)
    requires b == [] || !IsNameChar(b[0])
    requires NameRun(a) < |a|
    ensures NameRun(a + b) == NameRun(a)
  {
    if a != [] && IsNameChar(a[0]) {
      assert (a + b)[1..] == a[1..] + b;
      NameRunAppend(a[1..], b);
    }
  }

  lemma {:induction false} NameRunAppendAll(a: string, b: string)
    requires b == [] || !IsNameChar(b[0])
    requires NameRun(a) == |a|
    ensures NameRun(a + b) == |a|
  {
    if a == [] {
      assert a + b == b;
    } else {
      assert (a + b)[1..] == a[1..] + b;
      NameRunAppendAll(a[1..], b);
    }
  }

  /**
   * Substitution works piece by piece: text can be split anywhere a name cannot
   * continue, i.e. where the second piece does not start with a name character.
   */
  lemma {:induction false} SubstituteAppend(lookup: string -> string, a: string, b: string)
    requires b == [] || !IsNameChar(b[0])
    ensures Substitute(lookup, a + b) == Substitute(lookup, a) + Substitute(lookup, b)
    decreases |a|, 1
  {
    if a == [] {
      assert a + b == b;
    } else if a[0] == '$' && |a| > 1 && IsNameChar(a[1]) {
      SubstituteAppendMatch(lookup, a, b);
    } else {
      SubstituteAppendCopy(lookup, a, b);
    }
  }

  lemma {:induction false} SubstituteAppendMatch(lookup: string -> string, a: string, b: string)
    requires b == [] || !IsNameChar(b[0])
    requires |a| > 1 && a[0] == '$' && IsNameChar(a[1])
    ensures Substitute(lookup, a + b) == Substitute(lookup, a) + Substitute(lookup, b)
    decreases |a|, 0
  {
    var n := NameRun(a[1..]);
    assert (a + b)[1..] == a[1..] + b;
    if n < |a| - 1 {
      NameRunAppend(a[1..], b);
    } else {
      NameRunAppendAll(a[1..], b);
    }
    var name, rest := a[1..1 + n], a[1 + n..];
    assert (a + b)[1..1 + n] == name;
    assert (a + b)[1 + n..] == rest + b;
    SubstituteAppend(lookup, rest, b);
    MatchStep(lookup, a + b, n, name, rest + b);
    MatchStep(lookup, a, n, name, rest);
    AppendAssoc(lookup(name), Substitute(lookup, rest), Substitute(lookup, b));
  }

  lemma {:induction false} SubstituteAppendCopy(lookup: string -> string, a: string, b: string)
    requires b == [] || !IsNameChar(b[0])
    requires a != [] && !(a[0] == '$' && |a| > 1 && IsNameChar(a[1]))
    ensures Substitute(lookup, a + b) == Substitute(lookup, a) + Substitute(lookup, b)
    decreases |a|, 0
  {
    assert (a + b)[0] == a[0];
    assert |a| == 1 ==> (a + b)[1..] == b;
    assert |a| > 1 ==> (a + b)[1] == a[1];
    assert (a + b)[1..] == a[1..] + b;
    SubstituteAppend(lookup, a[1..], b);
    CopyStep(lookup, a + b, a[1..] + b);
    CopyStep(lookup, a, a[1..]);
    AppendAssoc([a[0]], Substitute(lookup, a[1..]), Substitute(lookup, b));
  }

  /** One step of `Substitute` at a match of `n` name characters. */
  lemma MatchStep(lookup: string -> string, s: string, n: nat, name: string, rest: string)
    requires |s| > 1 && s[0] == '$' && IsNameChar(s[1]) && n == NameRun(s[1..])
    requires name == s[1..1 + n] && rest == s[1 + n..]
    ensures Substitute(lookup, s) == lookup(name) + Substitute(lookup, rest)
  {
  }

  /** One step of `Substitute` copying a character that does not start a match. */
  lemma CopyStep(lookup: string -> string, s: string, rest: string)
    requires s != [] && !(s[0] == '$' && |s| > 1 && IsNameChar(s[1])) && rest == s[1..]
    ensures Substitute(lookup, s) == [s[0]] + Substitute(lookup, rest)
  {
  }

  lemma AppendAssoc(x: string, y: string, z: string)
    ensures x + (y + z) == (x + y) + z
  {
  }

  /** A `$` followed by a whole name is replaced by the name's value. */
  lemma {:induction false} SubstituteName(lookup: string -> string, name: string)
    requires name != [] && forall i :: 0 <= i < |name| ==> IsNameChar(name[i])
    ensures Substitute(lookup, "$" + name) == lookup(name)
  {
    var s := "$" + name;
    assert s[1..] == name;
    NameRunAll(name);
    assert s[1..1 + |name|] == name && s[1 + |name|..] == [];
  }

  lemma {:induction false} NameRunAll(s: string)
    requires forall i :: 0 <= i < |s| ==> IsNameChar(s[i])
    ensures NameRun(s) == |s|
  {
    if s != [] {
      NameRunAll(s[1..]);
    }
  }

  /** Two references separated by a `.`: the `.` ends the first name and is copied. */
  lemma SubstituteTwoNames(lookup: string -> string, x: string, y: string)
    requires x != [] && forall i :: 0 <= i < |x| ==> IsNameChar(x[i])
    requires y != [] && forall i :: 0 <= i < |y| ==> IsNameChar(y[i])
    ensures Substitute(lookup, "$" + x + ".$" + y) == lookup(x) + "." + lookup(y)
  {
    var tail := ".$" + y;
    assert "$" + x + ".$" + y == ("$" + x) + tail;
    SubstituteAppend(lookup, "$" + x, tail);
    SubstituteName(lookup, x);
    assert tail[0] == '.' && tail[1..] == "$" + y;
    CopyStep(lookup, tail, "$" + y);
    SubstituteName(lookup, y);
    AppendAssoc(lookup(x), ".", lookup(y));
  }

  /** `$x.$y` with two names becomes the two values joined by the `.`. */
  lemma EnvsubstTwoNames(env: map<string, string>, x: string, y: string)
    requires x != [] && forall i :: 0 <= i < |x| ==> IsNameChar(x[i])
    requires y != [] && forall i :: 0 <= i < |y| ==> IsNameChar(y[i])
    ensures Envsubst(env, "$" + x + ".$" + y) == LookupEnv(env, x) + "." + LookupEnv(env, y)
  {
    SubstituteTwoNames(name => LookupEnv(env, name), x, y);
  }

  const MyVar: string := "MY_VAR"
  const AnotherVar: string := "ANOTHER_VAR"
  const ExampleEnv: map<string, string> := map[MyVar := "hej2", AnotherVar := "hej3"]
  /** `$MY_VAR.$ANOTHER_VAR`. */
  const ExampleText: string := "$" + MyVar + ".$" + AnotherVar

  /** The package's test: `$MY_VAR.$ANOTHER_VAR` becomes `hej2.hej3`. */
  lemma EnvsubstExample()
    ensures Envsubst(ExampleEnv, ExampleText) == "hej2" + "." + "hej3"
  {
    var x, y := MyVar, AnotherVar;
    assert forall i :: 0 <= i < |x| ==> IsNameChar(x[i]);
    assert forall i :: 0 <= i < |y| ==> IsNameChar(y[i]);
    EnvsubstTwoNames(ExampleEnv, x, y);
    assert |x| != |y|;
    assert ExampleEnv == map[x := "hej2"][y := "hej3"];
    assert LookupEnv(ExampleEnv, x) == "hej2";
    assert LookupEnv(ExampleEnv, y) == "hej3";
  }
}

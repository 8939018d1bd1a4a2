/** CBOR data item headers (RFC 8949, section 3): a major type and a parameter, and the token that
    a scanned header becomes. */
module CborFormat {
  import opened Words

  datatype Option<T> = None | Some(value: T)

  const INT_POS: nat := 0
  const INT_NEG: nat := 1
  const STR_BYTE: nat := 2
  const STR_TEXT: nat := 3
  const ARRAY: nat := 4
  const MAP: nat := 5
  const TAG: nat := 6
  const SIMPLE: nat := 7

  const MAX_STRING_SIZE: nat := 1024
  const MAX_ARRAY_SIZE: nat := 256
  const MAX_MAP_SIZE: nat := 256

  const BREAK_CODE: byte := 0xFF

  /** The parameter of a header, a 64-bit word. */
  type Param = p: nat | p < 0x1_0000_0000_0000_0000

  datatype Token = Token(typeParam: nat, baseOffset: nat, tokenCount: nat, typeSpecifier: byte)

  /** The high order three bits of a type specifier. */
  function Major(specifier: byte): nat {
    specifier / 32
  }

  /** The low order five bits of a type specifier. */
  function Info(specifier: byte): nat {
    specifier % 32
  }

  /** How many bytes of parameter follow the first byte of a header. */
  function ParamBytes(info: nat): (k: nat) {
    if info == 24 then 1 else if info == 25 then 2 else if info == 26 then 4 else if info == 27 then 8 else 0
  }

  /** The first octet after the header that a token was made from. */
  function DataOffset(token: Token): (offset: nat)
    ensures offset > token.baseOffset
  {
    token.baseOffset + 1 + ParamBytes(Info(token.typeSpecifier))
  }

  /** Network byte order. */
  function Be(n: nat, k: nat): (s: seq<byte>)
    ensures |s| == k
  {
    if k == 0 then [] else Be(n / 0x100, k - 1) + [n % 0x100]
  }

  function FromBe(s: seq<byte>): (n: nat) {
    if s == [] then 0 else 0x100 * FromBe(s[..|s| - 1]) + s[|s| - 1]
  }

  lemma {:induction false} BeRoundTrip(n: nat, k: nat)
    requires n < Pow2(8 * k)
    ensures FromBe(Be(n, k)) == n
  {
    if k > 0 {
      Pow2Adds(8, 8 * (k - 1));
      Pow2Values();
      assert n / 0x100 < Pow2(8 * (k - 1));
      BeRoundTrip(n / 0x100, k - 1);
      var s := Be(n, k);
      assert s[..|s| - 1] == Be(n / 0x100, k - 1);
    }
  }

  /** Digit i of a number in network byte order. */
  lemma {:induction false} BeDigit(n: nat, k: nat, i: nat)
    requires i < k
    ensures Be(n, k)[i] == n / Pow2(8 * (k - 1 - i)) % 0x100
    decreases k
  {
    if i < k - 1 {
      BeDigit(n / 0x100, k - 1, i);
      ShiftTwice(n, 8 * (k - 2 - i));
    }
  }

  /** Bytes in network byte order are those of the number they stand for. */
  lemma {:induction false} BeOfFromBe(s: seq<byte>)
    ensures Be(FromBe(s), |s|) == s && FromBe(s) < Pow2(8 * |s|)
  {
    if s != [] {
      var front := s[..|s| - 1];
      BeOfFromBe(front);
      Pow2Adds(8, 8 * |front|);
      Pow2Values();
      assert s == front + [s[|s| - 1]];
    }
  }

  /** The header at an offset of a message, if there is a complete one there. */
  function Header(message: seq<byte>, offset: nat): (token: Option<Token>)
    ensures token.Some? ==> token.value.baseOffset == offset && token.value.tokenCount == 1
                            && DataOffset(token.value) <= |message|
  {
    if offset >= |message| then None
    else
      var info := Info(message[offset]);
      var k := ParamBytes(info);
      if 28 <= info <= 30 || offset + 1 + k > |message| then None
      else
        var param := if info < 24 then info else if info == 31 then 0 else FromBe(message[offset + 1..offset + 1 + k]);
        Some(Token(param, offset, 1, message[offset]))
  }

  /** There is a header wherever a byte with additional information other than 28 to 30 is followed by the bytes
      of parameter that it announces, a power of two of them; and these are the parameter in network byte order. */
  lemma HeaderIs(message: seq<byte>, offset: nat)
    ensures Header(message, offset).Some? <==>
              && offset < |message| && message[offset] % 32 !in {28, 29, 30}
              && (24 <= message[offset] % 32 < 28 ==> offset + 1 + Pow2(message[offset] % 32 - 24) <= |message|)
    ensures Header(message, offset).Some? ==>
              var token, info := Header(message, offset).value, message[offset] % 32;
              && token.baseOffset == offset && token.typeSpecifier == message[offset]
              && if info < 24 then token.typeParam == info
                 else if info == 31 then token.typeParam == 0
                 else Be(token.typeParam, Pow2(info - 24)) == message[offset + 1..offset + 1 + Pow2(info - 24)]
  {
    hide Be, FromBe;
    if offset < |message| {
      var info := message[offset] % 32;
      assert Pow2(0) == 1 && Pow2(1) == 2 && Pow2(2) == 4 && Pow2(3) == 8;
      if 24 <= info < 28 && offset + 1 + ParamBytes(info) <= |message| {
        BeOfFromBe(message[offset + 1..offset + 1 + ParamBytes(info)]);
      }
    }
  }

  /** The additional information for a parameter in its shortest form. */
  function InfoFor(param: Param): (info: nat)
    ensures info <= 27
  {
    if param < 24 then param
    else if param <= 0xFF then 24
    else if param <= 0xFFFF then 25
    else if param < 0x1_0000_0000 then 26
    else 27
  }

  function Specifier(major: nat, info: nat): (specifier: byte)
    requires major < 8 && info < 32
    ensures Major(specifier) == major && Info(specifier) == info
  {
    32 * major + info
  }

  /** The header for a major type and a parameter, in its shortest form. */
  function EncodeHeader(major: nat, param: Param): (s: seq<byte>)
    requires major < 8
    ensures 1 <= |s| <= 9
  {
    var info := InfoFor(param);
    [Specifier(major, info)] + Be(param, ParamBytes(info))
  }

  /** No header with the same parameter is shorter. */
  lemma ShortestHeader(message: seq<byte>, offset: nat, major: nat)
    requires major < 8 && Header(message, offset).Some?
    ensures var token := Header(message, offset).value;
            && token.typeParam < 0x1_0000_0000_0000_0000
            && DataOffset(token) - offset >= |EncodeHeader(major, token.typeParam)|
  {
    hide Be, FromBe, Pow2;
    var k := ParamBytes(Info(message[offset]));
    if k > 0 {
      BeOfFromBe(message[offset + 1..offset + 1 + k]);
      Pow2Values();
      Pow2Adds(32, 32);
    }
  }

  /** Bytes found at an offset of a message. */
  predicate Holds(message: seq<byte>, offset: nat, s: seq<byte>) {
    offset + |s| <= |message| && message[offset..offset + |s|] == s
  }

  lemma HoldsParts(message: seq<byte>, offset: nat, a: seq<byte>, b: seq<byte>)
    requires Holds(message, offset, a + b)
    ensures Holds(message, offset, a) && Holds(message, offset + |a|, b)
  {
    var s := message[offset..offset + |a + b|];
    assert s[..|a|] == a && s[|a|..] == b;
  }

  /** A header with k bytes of parameter is read back as it was written. */
  lemma HeaderWithBytes(message: seq<byte>, offset: nat, specifier: byte, param: nat)
    requires ParamBytes(Info(specifier)) > 0 && param < Pow2(8 * ParamBytes(Info(specifier)))
    requires Holds(message, offset, [specifier] + Be(param, ParamBytes(Info(specifier))))
    ensures Header(message, offset) == Some(Token(param, offset, 1, specifier))
  {
    hide Be, FromBe;
    var k := ParamBytes(Info(specifier));
    HoldsParts(message, offset, [specifier], Be(param, k));
    assert message[offset] == specifier by { assert message[offset..offset + 1][0] == specifier; }
    BeRoundTrip(param, k);
  }

  lemma HeaderOfOneByte(message: seq<byte>, offset: nat, specifier: byte)
    requires Holds(message, offset, [specifier]) && (Info(specifier) < 24 || Info(specifier) == 31)
    ensures Header(message, offset)
         == Some(Token(if Info(specifier) == 31 then 0 else Info(specifier), offset, 1, specifier))
  {
    assert message[offset..offset + 1][0] == specifier;
  }

  /** Every header the encoder writes is read back. */
  lemma HeaderRoundTrip(message: seq<byte>, offset: nat, major: nat, param: Param)
    requires major < 8 && Holds(message, offset, EncodeHeader(major, param))
    ensures Header(message, offset) == Some(Token(param, offset, 1, Specifier(major, InfoFor(param))))
    ensures DataOffset(Header(message, offset).value) == offset + |EncodeHeader(major, param)|
  {
    hide Header, Holds, Be, Pow2;
    var specifier := Specifier(major, InfoFor(param));
    if param < 24 {
      assert EncodeHeader(major, param) == [specifier];
      HeaderOfOneByte(message, offset, specifier);
    } else {
      Pow2Values();
      Pow2Adds(32, 32);
      HeaderWithBytes(message, offset, specifier, param);
    }
  }
}

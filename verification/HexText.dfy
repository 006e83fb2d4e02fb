/** Bytes as hexadecimal text (`bytes_to_hexs`, `hexs_to_bytes`), low half first as in a manifest. */
module HexText {
  import opened Bytes

  const HEX_DIGITS: seq<char> := "0123456789abcdef"

  function HexDigit(n: nat): char
    requires n < 16
  {
    HEX_DIGITS[n]
  }

  /** `_hex1_to_halfbyte`: digits in both cases, 255 for everything else. */
  function HalfByte(c: char): (h: byte)
    ensures h < 16 || h == 255
  {
    if '0' <= c <= '9' then (c - '0') as int
    else if 'A' <= c <= 'F' then (c - 'A') as int + 10
    else if 'a' <= c <= 'f' then (c - 'a') as int + 10
    else 255
  }

  lemma HalfOfDigit(n: nat)
    requires n < 16
    ensures HalfByte(HexDigit(n)) == n
  {
  }

  /** The digits are written in lower case and read in both cases. */
  lemma DigitsInBothCases(c: char, v: nat)
    requires v < 16
    ensures HexDigit(v) == if v < 10 then '0' + v as char else 'a' + (v - 10) as char
    ensures HalfByte(c) == v <==>
            c as int == (if v < 10 then '0' as int + v else 'a' as int + v - 10)
            || (v >= 10 && c as int == 'A' as int + v - 10)
  {
  }

  /** A byte as it is saved: its two digits, exchanged. */
  function Hex(bytes: seq<byte>): (s: seq<char>)
    ensures |s| == 2 * |bytes| && |s| % 2 == 0
  {
    if bytes == [] then [] else [HexDigit(bytes[0] % 16), HexDigit(bytes[0] / 16)] + Hex(bytes[1..])
  }

  function Unhex(s: seq<char>): (r: Option<seq<byte>>)
    requires |s| % 2 == 0
    ensures r.Some? ==> |r.value| == |s| / 2
  {
    if s == [] then Some([])
    else
      var l, h := HalfByte(s[0]), HalfByte(s[1]);
      if l > 15 || h > 15 then None
      else
        var rest :- Unhex(s[2..]);
        Some([h * 16 + l] + rest)
  }

  lemma ByteHalves(b: byte)
    ensures (b / 16) * 16 + b % 16 == b
  {
  }

  lemma {:induction false} HexStep(bytes: seq<byte>)
    requires bytes != []
    ensures var s := Hex(bytes);
      HalfByte(s[0]) == bytes[0] % 16 && HalfByte(s[1]) == bytes[0] / 16 && s[2..] == Hex(bytes[1..])
  {
    hide HexDigit, HalfByte;
    HalfOfDigit(bytes[0] % 16);
    HalfOfDigit(bytes[0] / 16);
  }

  lemma {:induction false} UnhexStep(s: seq<char>, b: byte, rest: seq<byte>)
    requires |s| % 2 == 0 && |s| >= 2 && Unhex(s[2..]) == Some(rest)
    requires HalfByte(s[0]) == b % 16 && HalfByte(s[1]) == b / 16
    ensures Unhex(s) == Some([b] + rest)
  {
    hide HalfByte;
    ByteHalves(b);
  }

  lemma {:induction false} UnhexOfHex(bytes: seq<byte>)
    ensures Unhex(Hex(bytes)) == Some(bytes)
  {
    if bytes != [] {
      UnhexOfHex(bytes[1..]);
      UnhexOfMore(bytes);
    }
  }

  lemma {:induction false} UnhexOfMore(bytes: seq<byte>)
    requires bytes != [] && Unhex(Hex(bytes[1..])) == Some(bytes[1..])
    ensures Unhex(Hex(bytes)) == Some(bytes)
  {
    hide HalfByte, Hex, Unhex, HexDigit;
    HexStep(bytes);
    UnhexStep(Hex(bytes), bytes[0], bytes[1..]);
    assert [bytes[0]] + bytes[1..] == bytes;
  }

  /** Hexadecimal digits hold no character of the manifest's own. */
  lemma {:induction false} HexChars(bytes: seq<byte>)
    ensures forall i :: 0 <= i < |Hex(bytes)| ==> HalfByte(Hex(bytes)[i]) <= 15
  {
    if bytes != [] {
      HalfOfDigit(bytes[0] % 16);
      HalfOfDigit(bytes[0] / 16);
      HexChars(bytes[1..]);
      forall i | 0 <= i < |Hex(bytes)| ensures HalfByte(Hex(bytes)[i]) <= 15 {
        assert i >= 2 ==> Hex(bytes)[i] == Hex(bytes[1..])[i - 2];
      }
    }
  }

  lemma {:induction false} HexAt(bytes: seq<byte>, i: nat)
    requires i < |bytes|
    ensures Hex(bytes)[2 * i] == HexDigit(bytes[i] % 16) && Hex(bytes)[2 * i + 1] == HexDigit(bytes[i] / 16)
  {
    if i > 0 {
      HexAt(bytes[1..], i - 1);
      assert Hex(bytes)[2 * i] == Hex(bytes[1..])[2 * (i - 1)];
    }
  }

  /** `bytes_to_hexs`. */
  method BytesToHexs(datas: seq<byte>, hexs: array<char>)
    requires hexs.Length == 2 * |datas|
    modifies hexs
    ensures forall k :: 0 <= k < |datas| ==>
              hexs[2 * k] == HexDigit(datas[k] / 16) && hexs[2 * k + 1] == HexDigit(datas[k] % 16)
  {
    hide HexDigit;
    var i := 0;
    while i < |datas|
      invariant 0 <= i <= |datas|
      invariant forall k :: 0 <= k < i ==>
                  hexs[2 * k] == HexDigit(datas[k] / 16) && hexs[2 * k + 1] == HexDigit(datas[k] % 16)
    {
      hexs[i * 2] := HexDigit(datas[i] / 16);
      hexs[i * 2 + 1] := HexDigit(datas[i] % 16);
      i := i + 1;
    }
  }

  /** Exchanges the two digits of every byte in place. */
  method SwapDigits(hexs: array<char>, n: nat)
    requires hexs.Length == 2 * n
    modifies hexs
    ensures forall k :: 0 <= k < n ==> hexs[2 * k] == old(hexs[2 * k + 1]) && hexs[2 * k + 1] == old(hexs[2 * k])
  {
    var h := 0;
    while h < n
      invariant 0 <= h <= n
      invariant forall k :: 0 <= k < h ==> hexs[2 * k] == old(hexs[2 * k + 1]) && hexs[2 * k + 1] == old(hexs[2 * k])
      invariant forall k :: 2 * h <= k < 2 * n ==> hexs[k] == old(hexs[k])
    {
      hexs[h * 2], hexs[h * 2 + 1] := hexs[h * 2 + 1], hexs[h * 2];
      h := h + 1;
    }
  }

  /** The text of a checksum. */
  method ChecksumHex(datas: seq<byte>) returns (hexs: array<char>)
    ensures fresh(hexs) && hexs[..] == Hex(datas)
  {
    hide HexDigit, Hex;
    hexs := new char[2 * |datas|](_ => ' ');
    BytesToHexs(datas, hexs);
    SwapDigits(hexs, |datas|);
    forall j | 0 <= j < hexs.Length ensures hexs[j] == Hex(datas)[j] {
      HexAt(datas, j / 2);
    }
  }

  lemma {:induction false} UnhexAt(s: seq<char>, i: nat)
    requires |s| % 2 == 0 && 2 * i < |s|
    ensures Unhex(s).Some? ==> HalfByte(s[2 * i]) <= 15 && HalfByte(s[2 * i + 1]) <= 15
                               && Unhex(s).value[i] == HalfByte(s[2 * i + 1]) * 16 + HalfByte(s[2 * i])
    decreases |s|
  {
    if i > 0 {
      UnhexAt(s[2..], i - 1);
    }
  }

  lemma {:induction false} UnhexAll(s: seq<char>)
    requires |s| % 2 == 0 && forall i :: 0 <= i < |s| ==> HalfByte(s[i]) <= 15
    ensures Unhex(s).Some?
    decreases |s|
  {
    if s != [] {
      UnhexAll(s[2..]);
    }
  }

  /** The bytes of pairs of digits, high half first; 0 for what is no digit. */
  function PairByte(h: byte, l: byte): byte {
    if h <= 15 && l <= 15 then h * 16 + l else 0
  }

  /** `hexs_to_bytes`: converts everything, then says whether all of it were digits. */
  method HexsToBytes(hexs: seq<char>, data: array<byte>) returns (check: bool)
    requires |hexs| == 2 * data.Length
    modifies data
    ensures check <==> forall k :: 0 <= k < |hexs| ==> HalfByte(hexs[k]) <= 15
    ensures forall k :: 0 <= k < data.Length ==>
              data[k] == PairByte(HalfByte(hexs[2 * k]), HalfByte(hexs[2 * k + 1]))
  {
    hide HalfByte, PairByte;
    check := true;
    var i := 0;
    while i < data.Length
      invariant 0 <= i <= data.Length
      invariant check <==> forall k :: 0 <= k < 2 * i ==> HalfByte(hexs[k]) <= 15
      invariant forall k :: 0 <= k < i ==>
                  data[k] == PairByte(HalfByte(hexs[2 * k]), HalfByte(hexs[2 * k + 1]))
    {
      var h, l := HalfByte(hexs[i * 2]), HalfByte(hexs[i * 2 + 1]);
      data[i] := PairByte(h, l);
      check := check && h <= 15 && l <= 15;
      i := i + 1;
    }
  }

  /** Exchanges the halves of every byte in place. */
  method SwapHalves(data: array<byte>)
    modifies data
    ensures forall k :: 0 <= k < data.Length ==> data[k] == (old(data[k]) as int * 16) % 256 + old(data[k]) / 16
  {
    var i := 0;
    while i < data.Length
      invariant 0 <= i <= data.Length
      invariant forall k :: 0 <= k < i ==> data[k] == (old(data[k]) as int * 16) % 256 + old(data[k]) / 16
      invariant forall k :: i <= k < data.Length ==> data[k] == old(data[k])
    {
      data[i] := (data[i] as int * 16) % 256 + data[i] / 16;
      i := i + 1;
    }
  }

  lemma SwapOfPair(h: byte, l: byte)
    requires h <= 15 && l <= 15
    ensures (PairByte(h, l) as int * 16) % 256 + PairByte(h, l) / 16 == l * 16 + h
  {
    var b: int := h * 16 + l;
    assert b * 16 == h * 256 + l * 16;
    assert (b * 16) % 256 == l * 16 && b / 16 == h;
  }

  /** `_hex2data`. */
  method HexToData(hex: seq<char>) returns (ok: bool, data: array<byte>)
    requires |hex| % 2 == 0
    ensures fresh(data) && ok == Unhex(hex).Some?
    ensures ok ==> data[..] == Unhex(hex).value
  {
    hide HalfByte, PairByte, Unhex;
    data := new byte[|hex| / 2](_ => 0);
    ok := HexsToBytes(hex, data);
    if !ok {
      var k :| 0 <= k < |hex| && HalfByte(hex[k]) > 15;
      UnhexAt(hex, k / 2);
      return;
    }
    UnhexAll(hex);
    SwapHalves(data);
    forall k | 0 <= k < data.Length ensures data[k] == Unhex(hex).value[k] {
      UnhexAt(hex, k);
      SwapOfPair(HalfByte(hex[2 * k]), HalfByte(hex[2 * k + 1]));
    }
  }
}

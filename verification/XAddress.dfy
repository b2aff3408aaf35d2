/** X-addresses: codec/addresscodec/x_codec.go over the checked base 58 of
    codec/addresscodec/base58check.go. The checksum is any function to four bytes. */
module XAddress {
  import opened Base58

  datatype Network = Mainnet | Testnet

  datatype Tag = NoTag | Tag(value: nat)

  datatype Address = Address(account: seq<nat>, tag: Tag, network: Network)

  datatype Parsed = Accepted(address: Address) | Refused

  type Checksum = seq<nat> -> seq<nat>

  /** The checksum yields four bytes. */
  ghost predicate FourBytes(sum: Checksum) {
    forall b :: |sum(b)| == 4 && AllBelow(sum(b), 256)
  }

  function Prefix(network: Network): (p: seq<nat>)
    ensures |p| == 2 && AllBelow(p, 256)
  {
    if network == Testnet then [0x04, 0x93] else [0x05, 0x44]
  }

  /** The four bytes of a tag, lowest first. */
  function TagBytes(tag: Tag): (b: seq<nat>)
    ensures |b| == 5 && AllBelow(b, 256)
  {
    match tag
    case NoTag => [0, 0, 0, 0, 0]
    case Tag(v) => [1, v % 256, v / 256 % 256, v / 65536 % 256, v / 16777216 % 256]
  }

  /** What the types of the source guarantee: bytes, and a tag of 32 bits. */
  predicate Typed(a: Address) {
    AllBelow(a.account, 256) && (a.tag.Tag? ==> a.tag.value < 0x1_0000_0000)
  }

  predicate WellFormed(a: Address) {
    Typed(a) && |a.account| == 20
  }

  /** The 31 bytes of an address before its checksum. */
  function Payload(a: Address): (b: seq<nat>)
    requires WellFormed(a)
    ensures |b| == 31 && AllBelow(b, 256)
  {
    Prefix(a.network) + a.account + TagBytes(a.tag) + [0, 0, 0, 0]
  }

  datatype Coded = Coded(text: string) | InvalidAccount

  /** What EncodeXAddress yields; an account must have twenty bytes. */
  function XAddressOf(a: Address, sum: Checksum): Coded
    requires Typed(a)
  {
    if |a.account| != 20 then InvalidAccount else Coded(Encoded(Payload(a) + sum(Payload(a))))
  }

  /** EncodeXAddress, appending to a buffer. */
  method EncodeXAddress(account: seq<nat>, tag: Tag, network: Network, sum: Checksum) returns (r: Coded)
    requires Typed(Address(account, tag, network)) && FourBytes(sum)
    ensures r == XAddressOf(Address(account, tag, network), sum)
  {
    if |account| != 20 {
      return InvalidAccount;
    }
    var buffer := if network == Testnet then [0x04, 0x93] else [0x05, 0x44];
    buffer := buffer + account;
    var value: nat := 0;
    if tag.Tag? {
      buffer, value := buffer + [1], tag.value;
    } else {
      buffer := buffer + [0];
    }
    buffer := buffer + [value % 256, value / 256 % 256, value / 65536 % 256, value / 16777216 % 256, 0, 0, 0, 0];
    assert buffer == Payload(Address(account, tag, network));
    buffer := buffer + sum(buffer);
    var text := EncodeBase58(buffer);
    r := Coded(text);
  }

  /** Base58CheckDecode: the checked bytes, or nothing. */
  function CheckDecode(s: string, sum: Checksum): (b: seq<nat>)
    ensures b != [] ==> InAlphabet(s) && Decoded(s) == b + sum(b)
  {
    var decoded := Decoded(s);
    if |decoded| < 5 then []
    else
      var body := decoded[..|decoded| - 4];
      if sum(body) == decoded[|decoded| - 4..] then
        assert decoded == body + decoded[|decoded| - 4..];
        body
      else []
  }

  /** decodeTag: a flag byte, the tag, and reserved bytes that must be zero. */
  method DecodeTag(b: seq<nat>) returns (ok: bool, tag: Tag)
    requires |b| == 31 && AllBelow(b, 256)
    ensures ok == TagFits(b)
    ensures ok ==> tag == TagOf(b)
  {
    var flag := b[22];
    tag := NoTag;
    if flag >= 2 {
      return false, NoTag;
    }
    var reserved := if flag == 1 then 27 else 23;
    for i := reserved to 31
      invariant forall j :: reserved <= j < i ==> b[j] == 0
    {
      if b[i] != 0 {
        return false, NoTag;
      }
    }
    if flag == 1 {
      tag := Tag(b[23] + b[24] * 0x100 + b[25] * 0x10000 + b[26] * 0x1000000);
    }
    ok := true;
  }

  predicate TagFits(b: seq<nat>)
    requires |b| == 31
  {
    b[22] < 2 && forall j :: (if b[22] == 1 then 27 else 23) <= j < 31 ==> b[j] == 0
  }

  function TagOf(b: seq<nat>): Tag
    requires |b| == 31
  {
    if b[22] == 1 then Tag(b[23] + b[24] * 0x100 + b[25] * 0x10000 + b[26] * 0x1000000) else NoTag
  }

  /** What decoding yields. */
  function PartsOf(s: string, sum: Checksum): Parsed {
    var b := CheckDecode(s, sum);
    if |b| != 31 then Refused
    else if b[..2] != Prefix(Mainnet) && b[..2] != Prefix(Testnet) then Refused
    else if !TagFits(b) then Refused
    else Accepted(Address(b[2..22], TagOf(b), if b[..2] == Prefix(Mainnet) then Mainnet else Testnet))
  }

  /** DecodeXAddressWithTagPresence. */
  method DecodeXAddress(s: string, sum: Checksum) returns (r: Parsed)
    ensures r == PartsOf(s, sum)
  {
    var decoded := DecodeBase58(s);
    if |decoded| < 5 || sum(decoded[..|decoded| - 4]) != decoded[|decoded| - 4..] {
      return Refused;
    }
    var b := decoded[..|decoded| - 4];
    if |b| != 31 {
      return Refused;
    }
    var network := Mainnet;
    if b[..2] != Prefix(Mainnet) {
      if b[..2] != Prefix(Testnet) {
        return Refused;
      }
      network := Testnet;
    }
    var ok, tag := DecodeTag(b);
    if !ok {
      return Refused;
    }
    return Accepted(Address(b[2..22], tag, network));
  }

  lemma {:induction false} TagReads(v: nat)
    requires v < 0x1_0000_0000
    ensures v % 256 + v / 256 % 256 * 0x100 + v / 65536 % 256 * 0x10000 + v / 16777216 % 256 * 0x1000000 == v
  {
    assert v / 256 / 256 == v / 65536 && v / 65536 / 256 == v / 16777216;
  }

  lemma {:induction false} TagWrites(a: nat, b: nat, c: nat, d: nat)
    requires a < 256 && b < 256 && c < 256 && d < 256
    ensures var v := a + b * 0x100 + c * 0x10000 + d * 0x1000000;
      v < 0x1_0000_0000 && v % 256 == a && v / 256 % 256 == b && v / 65536 % 256 == c && v / 16777216 % 256 == d
  {
  }

  /** Parsing the bytes of an address gives its parts back. */
  lemma {:induction false} PayloadReads(a: Address)
    requires WellFormed(a)
    ensures var b := Payload(a);
      b[..2] == Prefix(a.network) && b[2..22] == a.account && TagFits(b) && TagOf(b) == a.tag
  {
    var b := Payload(a);
    assert b[22..27] == TagBytes(a.tag) && b[27..] == [0, 0, 0, 0];
    assert forall j :: 27 <= j < 31 ==> b[j] == b[27..][j - 27];
    assert forall j :: 22 <= j < 27 ==> b[j] == b[22..27][j - 22];
    if a.tag.Tag? {
      TagReads(a.tag.value);
    }
  }

  /** Accepted bytes are the bytes of the address they parse to. */
  lemma {:induction false} PayloadWrites(b: seq<nat>, network: Network)
    requires |b| == 31 && AllBelow(b, 256) && b[..2] == Prefix(network) && TagFits(b)
    ensures WellFormed(Address(b[2..22], TagOf(b), network))
    ensures Payload(Address(b[2..22], TagOf(b), network)) == b
  {
    TagWrites(b[23], b[24], b[25], b[26]);
    var a := Address(b[2..22], TagOf(b), network);
    assert WellFormed(a);
    assert b[22..27] == TagBytes(a.tag);
    assert b[27..] == [0, 0, 0, 0];
    assert b == b[..2] + b[2..22] + b[22..27] + b[27..];
  }

  lemma {:induction false} CheckDecodeInverts(body: seq<nat>, sum: Checksum)
    requires AllBelow(body, 256) && |body| > 0 && FourBytes(sum)
    ensures CheckDecode(Encoded(body + sum(body)), sum) == body
  {
    DecodeUndoesEncode(body + sum(body));
    var decoded := body + sum(body);
    assert decoded[..|decoded| - 4] == body && decoded[|decoded| - 4..] == sum(body);
  }

  /** An encoded address decodes to its account, tag presence, tag and network. */
  lemma {:induction false} AddressRoundTrip(a: Address, sum: Checksum)
    requires WellFormed(a) && FourBytes(sum)
    ensures XAddressOf(a, sum).Coded? && PartsOf(XAddressOf(a, sum).text, sum) == Accepted(a)
  {
    CheckDecodeInverts(Payload(a), sum);
    PayloadReads(a);
    assert Prefix(Mainnet)[0] != Prefix(Testnet)[0];
  }

  /** Every accepted X-address is the one its decoded parts encode to. */
  lemma {:induction false} AcceptedIsEncoded(s: string, sum: Checksum)
    requires FourBytes(sum) && PartsOf(s, sum).Accepted?
    ensures WellFormed(PartsOf(s, sum).address)
    ensures XAddressOf(PartsOf(s, sum).address, sum) == Coded(s)
  {
    var b := CheckDecode(s, sum);
    EncodeUndoesDecode(s);
    BytesOf(b, sum(b));
    PayloadWrites(b, if b[..2] == Prefix(Mainnet) then Mainnet else Testnet);
  }

  lemma {:induction false} BytesOf(b: seq<nat>, c: seq<nat>)
    requires AllBelow(b + c, 256)
    ensures AllBelow(b, 256)
  {
    forall i | 0 <= i < |b|
      ensures b[i] < 256
    {
      assert (b + c)[i] == b[i];
    }
  }
}

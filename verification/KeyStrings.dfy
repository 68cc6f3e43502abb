/** Keys as text: a prefix for the kind and the type, then base 58 with a checksum. */
module KeyStrings {
  import opened Basics
  import opened Options
  import opened ByteStrings
  import opened Radix
  import opened Base58
  import opened KeyTypes
  import Ripemd160

  /** The hash, and how its final state is laid out as bytes. */
  datatype Hashing<!H> = Hashing(compress: (H, Bytes) -> H, init: H, output: H -> Bytes)

  ghost predicate Lays20Bytes<H(!new)>(h: Hashing<H>) {
    forall x: H :: |h.output(x)| == 20
  }

  /** The hash of the data and a suffix, in one piece. */
  function Sum<H>(h: Hashing<H>, data: Bytes, suffix: Bytes): Bytes {
    h.output(Ripemd160.Digest(h.compress, h.init, data + suffix))
  }

  /** digest_suffix_ripemd160: the two parts are fed one after the other. */
  method DigestSuffix<H>(h: Hashing<H>, data: Bytes, suffix: Bytes) returns (digest: Bytes)
    ensures digest == Sum(h, data, suffix)
  {
    var out := Ripemd160.HashChunks(h.compress, h.init, [data, suffix]);
    TwoChunks(data, suffix);
    digest := h.output(out);
  }

  lemma TwoChunks(a: Bytes, b: Bytes)
    ensures Ripemd160.Concat([a, b]) == a + b
  {
    assert [a, b][..1] == [a] && [a][..0] == [];
    assert Ripemd160.Concat([a]) == [] + a;
  }

  /** The bytes of base 58 text. */
  ghost function BytesOf(s: string): Bytes
    requires Accepted(s)
  {
    AcceptedComesBack(s);
    ToBytes(Decoded(s))
  }

  /** The data of a text, when the last four bytes are the checksum of those before them. */
  ghost function CheckedData<H(!new)>(h: Hashing<H>, s: string, suffix: Bytes): Option<Bytes>
    requires Lays20Bytes(h)
  {
    if !Accepted(s) then None
    else
      var b := BytesOf(s);
      if |b| > 4 && Sum(h, b[..|b| - 4], suffix)[..4] == b[|b| - 4..] then Some(b[..|b| - 4]) else None
  }

  /** The base 58 text of data and its checksum. */
  ghost function CheckedText<H(!new)>(h: Hashing<H>, data: Bytes, suffix: Bytes): string
    requires Lays20Bytes(h)
  {
    var b := data + Sum(h, data, suffix)[..4];
    BytesComeBack(b);
    Chars(Encoded(b))
  }

  /** Every data comes back from its text. */
  lemma DataReads<H(!new)>(h: Hashing<H>, data: Bytes, suffix: Bytes)
    requires Lays20Bytes(h) && data != []
    ensures CheckedData(h, CheckedText(h, data, suffix), suffix) == Some(data)
  {
    var b := data + Sum(h, data, suffix)[..4];
    BytesComeBack(b);
    assert ToBytes(Nats(b)) == b;
    hide Encoded, Decoded, Sum;
    assert b[..|b| - 4] == data && b[|b| - 4..] == Sum(h, data, suffix)[..4];
  }

  /** A text comes back from its data exactly when it has no NUL in it. */
  lemma CheckedTextComesBack<H(!new)>(h: Hashing<H>, s: string, suffix: Bytes)
    requires Lays20Bytes(h) && CheckedData(h, s, suffix).Some?
    ensures CheckedText(h, CheckedData(h, s, suffix).value, suffix) == s <==> InAlphabet(s)
  {
    AcceptedComesBack(s);
    var b := BytesOf(s);
    hide Encoded, Decoded, Sum;
    assert b == b[..|b| - 4] + b[|b| - 4..];
  }

  // ----- the prefixes -----

  /** The types by their numbers. */
  function Name(alternative: nat): string {
    if alternative == 0 then "K1" else if alternative == 1 then "R1" else "WA"
  }

  function Tag(kind: Kind): string {
    match kind
    case PublicKey => "PUB_"
    case PrivateKey => "PVT_"
    case Signature => "SIG_"
  }

  function Prefix(kind: Kind, alternative: nat): (p: string)
    ensures |p| == 7
  {
    Tag(kind) + Name(alternative) + "_"
  }

  /** The name of the type is hashed with the data. */
  function Suffix(alternative: nat): Bytes {
    if alternative == 0 then [75, 49] else if alternative == 1 then [82, 49] else [87, 65]
  }

  predicate Starts(s: string, p: string) {
    |p| <= |s| && s[..|p|] == p
  }

  /** How a text is read: `at` is where the base 58 starts. */
  datatype Form =
    | Summed(alternative: nat, suffix: Bytes, at: nat)
    | Unsummed
    | Unknown

  /** Old public keys start with EOS; old private keys have no prefix and no checksum. */
  function FormOf(kind: Kind, s: string): (f: Form)
    ensures f.Summed? ==> f.alternative < Alternatives(kind) && f.at <= |s|
  {
    if kind.PublicKey? && Starts(s, "EOS") then Summed(0, [], 3)
    else if Starts(s, Prefix(kind, 0)) then Summed(0, Suffix(0), 7)
    else if Starts(s, Prefix(kind, 1)) then Summed(1, Suffix(1), 7)
    else if !kind.PrivateKey? && Starts(s, Prefix(kind, 2)) then Summed(2, Suffix(2), 7)
    else if kind.PrivateKey? && !Starts(s, "PVT_") then Unsummed
    else Unknown
  }

  lemma WrittenForm(kind: Kind, alternative: nat, text: string)
    requires alternative < Alternatives(kind)
    ensures FormOf(kind, Prefix(kind, alternative) + text) == Summed(alternative, Suffix(alternative), 7)
  {
    var p := Prefix(kind, alternative);
    var s := p + text;
    assert s[..7] == p;
    assert s[5] == Name(alternative)[1] && s[4] == Name(alternative)[0];
    forall i: nat | i < Alternatives(kind) && Starts(s, Prefix(kind, i)) ensures i == alternative {
      assert s[..7][4] == Name(i)[0];
    }
    if kind.PublicKey? { assert s[..3][0] == s[..7][0] == 'P'; }
  }

  // ----- writing and reading -----

  ghost function TextOf<H(!new)>(h: Hashing<H>, kind: Kind, key: Key): Option<string>
    requires Lays20Bytes(h) && IsKey(kind, key)
  {
    var data := Packed(Layout(kind, key.alternative), key.parts);
    if data.None? then None
    else Some(Prefix(kind, key.alternative) + CheckedText(h, data.value, Suffix(key.alternative)))
  }

  /** The key with this data; what follows it is not looked at. */
  function KeyOf(kind: Kind, alternative: nat, data: Bytes): Option<Key> {
    var t := Unpacked(Layout(kind, alternative), data);
    if t.None? then None else Some(Key(alternative, t.value.values))
  }

  /** An old private key's first byte and last four are dropped unseen. */
  ghost function UnsummedData(s: string): Option<Bytes> {
    if !Accepted(s) || |BytesOf(s)| < 5 then None else Some(BytesOf(s)[1..|BytesOf(s)| - 4])
  }

  ghost function DataOf<H(!new)>(h: Hashing<H>, kind: Kind, s: string): Option<Bytes>
    requires Lays20Bytes(h)
  {
    match FormOf(kind, s)
    case Summed(_, suffix, at) => CheckedData(h, s[at..], suffix)
    case Unsummed => UnsummedData(s)
    case Unknown => None
  }

  ghost function KeyFrom<H(!new)>(h: Hashing<H>, kind: Kind, s: string): Option<Key>
    requires Lays20Bytes(h)
  {
    var f, data := FormOf(kind, s), DataOf(h, kind, s);
    if data.None? then None else KeyOf(kind, if f.Summed? then f.alternative else 0, data.value)
  }

  /** The text of a key, from its type and its data. */
  method KeyToString<H(!new)>(h: Hashing<H>, kind: Kind, key: Key) returns (s: Option<string>)
    requires Lays20Bytes(h) && IsKey(kind, key)
    ensures s == TextOf(h, kind, key)
  {
    var data := Packed(Layout(kind, key.alternative), key.parts);
    if data.None? {
      return None;
    }
    var suffix := Suffix(key.alternative);
    var digest := DigestSuffix(h, data.value, suffix);
    hide Encoded, Sum, Packed;
    var text := BinaryToBase58(data.value + digest[..4]);
    assert text == CheckedText(h, data.value, suffix);
    s := Some(Prefix(kind, key.alternative) + text);
  }

  /** The key of a text with a checksum: None for a bad character, too few bytes, a wrong
      checksum, and data that ends before the key does. */
  method StringToKey<H(!new)>(h: Hashing<H>, kind: Kind, s: string, alternative: byte, suffix: Bytes) returns (key: Option<Key>)
    requires Lays20Bytes(h)
    ensures var data := CheckedData(h, s, suffix); key == if data.None? then None else KeyOf(kind, alternative, data.value)
  {
    hide Decoded, KeyOf;
    var ok, whole := Base58ToBinary([alternative], s);
    if !ok || |whole| <= 5 {
      return None;
    }
    assert whole[1..] == BytesOf(s);
    var fits := SumFits(h, whole, suffix, whole[1..]);
    key := if fits then KeyOf(kind, alternative, whole[1..|whole| - 4]) else None;
  }

  /** Whether the last four bytes are the checksum of those after the type byte. */
  method SumFits<H(!new)>(h: Hashing<H>, whole: Bytes, suffix: Bytes, ghost b: Bytes) returns (fits: bool)
    requires Lays20Bytes(h) && |whole| > 5 && b == whole[1..]
    ensures fits <==> Sum(h, b[..|b| - 4], suffix)[..4] == b[|b| - 4..]
    ensures whole[1..|whole| - 4] == b[..|b| - 4]
  {
    var n := |whole| - 4;
    assert whole[1..n] == b[..|b| - 4] && whole[n..] == b[|b| - 4..];
    var digest := DigestSuffix(h, whole[1..n], suffix);
    fits := digest[..4] == whole[n..];
  }

  /** The key of any text. */
  method KeyFromString<H(!new)>(h: Hashing<H>, kind: Kind, s: string) returns (key: Option<Key>)
    requires Lays20Bytes(h)
    ensures key == KeyFrom(h, kind, s)
  {
    hide KeyOf, CheckedData, Decoded;
    match FormOf(kind, s)
    case Summed(alternative, suffix, at) =>
      key := StringToKey(h, kind, s[at..], alternative, suffix);
    case Unsummed =>
      var ok, whole := Base58ToBinary([], s);
      if !ok || |whole| < 5 {
        return None;
      }
      assert whole == BytesOf(s);
      key := KeyOf(kind, 0, whole[1..|whole| - 4]);
    case Unknown =>
      key := None;
  }

  // ----- round trips -----

  /** Every key comes back from its text, and it has one unless a size needs more than 32 bits. */
  lemma KeyComesBack<H(!new)>(h: Hashing<H>, kind: Kind, key: Key)
    requires Lays20Bytes(h) && IsKey(kind, key)
    ensures TextOf(h, kind, key).None? <==>
              exists i :: 0 <= i < |key.parts| && !Layout(kind, key.alternative)[i].Fixed? && |key.parts[i]| >= UINT32
    ensures TextOf(h, kind, key).Some? ==> KeyFrom(h, kind, TextOf(h, kind, key).value) == Some(key)
  {
    var layout := Layout(kind, key.alternative);
    PackedWhenSmall(layout, key.parts);
    var data := Packed(layout, key.parts);
    if data.Some? {
      PartsRead(layout, key.parts, []);
      assert data.value + [] == data.value;
      assert data.value != [] by { assert |key.parts[0]| > 0; }
      var suffix := Suffix(key.alternative);
      var text := CheckedText(h, data.value, suffix);
      WrittenForm(kind, key.alternative, text);
      DataReads(h, data.value, suffix);
      hide CheckedText, CheckedData, Packed, Unpacked, FormOf;
      assert (Prefix(kind, key.alternative) + text)[7..] == text;
    }
  }

  /** What a caller can see of a text before reading it: it has the new prefix, there is no NUL
      in its base 58, and the data under it holds nothing but the key. */
  ghost predicate Plain<H(!new)>(h: Hashing<H>, kind: Kind, s: string)
    requires Lays20Bytes(h)
  {
    var f, data := FormOf(kind, s), DataOf(h, kind, s);
    f.Summed? && f.at == 7 && InAlphabet(s[7..]) && data.Some? && NothingExtra(Layout(kind, f.alternative), data.value)
  }

  lemma PrefixOfForm(kind: Kind, s: string)
    requires var f := FormOf(kind, s); f.Summed? && f.at == 7
    ensures var f := FormOf(kind, s); s == Prefix(kind, f.alternative) + s[7..] && f.suffix == Suffix(f.alternative)
  {
  }

  /** A text that reads comes back from its key exactly when it is plain. */
  lemma TextComesBack<H(!new)>(h: Hashing<H>, kind: Kind, s: string)
    requires Lays20Bytes(h) && KeyFrom(h, kind, s).Some?
    ensures IsKey(kind, KeyFrom(h, kind, s).value)
    ensures TextOf(h, kind, KeyFrom(h, kind, s).value) == Some(s) <==> Plain(h, kind, s)
  {
    var f, data, key := FormOf(kind, s), DataOf(h, kind, s).value, KeyFrom(h, kind, s).value;
    var layout := Layout(kind, key.alternative);
    DataComesBack(layout, data);
    var packed := Packed(layout, key.parts);
    if packed.Some? {
      var text := CheckedText(h, packed.value, Suffix(key.alternative));
      WrittenForm(kind, key.alternative, text);
      PartsRead(layout, key.parts, []);
      assert packed.value + [] == packed.value;
      assert packed.value != [] by { assert |key.parts[0]| > 0; }
      DataReads(h, packed.value, Suffix(key.alternative));
      assert (Prefix(kind, key.alternative) + text)[7..] == text;
    }
    if f.Summed? && f.at == 7 {
      PrefixOfForm(kind, s);
      CheckedTextComesBack(h, s[7..], f.suffix);
    }
  }

  /** No character of base 58 is in a prefix's place. */
  lemma NoPrefix(s: string)
    requires InAlphabet(s)
    ensures FormOf(PrivateKey, s) == Unsummed
  {
    assert forall p: string :: |p| > 3 && Starts(s, p) ==> s[3] == p[3];
    assert DigitOf('_') == None;
  }

  lemma Between(version: byte, data: Bytes, sum: Bytes, b: Bytes)
    requires |sum| == 4 && b == [version] + data + sum
    ensures b[1..|b| - 4] == data
  {
  }

  /** An old private key reads whatever its first byte and its checksum are, and
      whatever follows the 32 bytes of the key. */
  lemma ChecksumUnseen<H(!new)>(h: Hashing<H>, version: byte, key: Bytes, more: Bytes, sum: Bytes)
    requires Lays20Bytes(h) && |key| == 32 && |sum| == 4
    ensures var b := [version] + key + more + sum;
            Digits(Encoded(b), 58) && KeyFrom(h, PrivateKey, Chars(Encoded(b))) == Some(Key(0, [key]))
  {
    hide Encoded, Decoded, Chars, InAlphabet, FormOf, Unpacked;
    var b := [version] + key + more + sum;
    BytesComeBack(b);
    CharsBack(Encoded(b));
    var s := Chars(Encoded(b));
    NoPrefix(s);
    assert BytesOf(s) == b;
    Between(version, key + more, sum, b);
    OneArray(32, key + more);
    assert (key + more)[..32] == key;
  }

  /** The old text of a public key reads as its new text does. */
  lemma OldPublicKeyReads<H(!new)>(h: Hashing<H>, key: Bytes)
    requires Lays20Bytes(h) && |key| == 33
    ensures KeyFrom(h, PublicKey, "EOS" + CheckedText(h, key, [])) == Some(Key(0, [key]))
  {
    var s := "EOS" + CheckedText(h, key, []);
    assert s[..3] == "EOS" && s[3..] == CheckedText(h, key, []);
    DataReads(h, key, []);
    OneArray(33, key);
    assert key[..33] == key;
  }

  // ----- the texts, character by character -----

  /** The base 58 of a text is that of the data and the first four bytes of the hash of the data and of
      the two characters in front of the second underscore. */
  ghost predicate Sealed<H(!new)>(h: Hashing<H>, data: Bytes, s: string)
    requires Lays20Bytes(h)
  {
    && |s| >= 7 && Accepted(s[7..]) && 0 <= s[4] as int < 256 && 0 <= s[5] as int < 256
    && var sum := h.output(Ripemd160.Digest(h.compress, h.init, data + [s[4] as int, s[5] as int]));
       |sum| == 20 && BytesOf(s[7..]) == data + sum[..4]
  }

  /** A text starts with the kind and the type, and its base 58 holds the key's bytes and four
      bytes of the hash of these and the two characters of the type. */
  lemma TextStarts<H(!new)>(h: Hashing<H>, kind: Kind, key: Key)
    requires Lays20Bytes(h) && IsKey(kind, key) && TextOf(h, kind, key).Some?
    ensures var s := TextOf(h, kind, key).value;
            && |s| >= 7
            && s[..7] == (if kind.PublicKey? then
                            if key.alternative == 0 then "PUB_K1_" else if key.alternative == 1 then "PUB_R1_" else "PUB_WA_"
                          else if kind.PrivateKey? then
                            if key.alternative == 0 then "PVT_K1_" else "PVT_R1_"
                          else
                            if key.alternative == 0 then "SIG_K1_" else if key.alternative == 1 then "SIG_R1_" else "SIG_WA_")
    ensures Sealed(h, Packed(Layout(kind, key.alternative), key.parts).value, TextOf(h, kind, key).value)
  {
    var data, suffix := Packed(Layout(kind, key.alternative), key.parts).value, Suffix(key.alternative);
    var text := CheckedText(h, data, suffix);
    TextHolds(h, data, suffix);
    PrefixIs(kind, key.alternative, text);
    hide Packed, CheckedText, Accepted, Prefix, Suffix;
    assert TextOf(h, kind, key) == Some(Prefix(kind, key.alternative) + text);
  }

  lemma PrefixIs(kind: Kind, alternative: nat, text: string)
    requires alternative < Alternatives(kind)
    ensures var s := Prefix(kind, alternative) + text;
            && s[7..] == text && 0 <= s[4] as int < 256 && 0 <= s[5] as int < 256 && Suffix(alternative) == [s[4] as int, s[5] as int]
            && s[..7] == (if kind.PublicKey? then if alternative == 0 then "PUB_K1_" else if alternative == 1 then "PUB_R1_" else "PUB_WA_"
                          else if kind.PrivateKey? then if alternative == 0 then "PVT_K1_" else "PVT_R1_"
                          else if alternative == 0 then "SIG_K1_" else if alternative == 1 then "SIG_R1_" else "SIG_WA_")
  {
    var p := Prefix(kind, alternative);
    assert (p + text)[..7] == p && (p + text)[7..] == text && (p + text)[4] == p[4] && (p + text)[5] == p[5];
  }

  lemma TextHolds<H(!new)>(h: Hashing<H>, data: Bytes, suffix: Bytes)
    requires Lays20Bytes(h)
    ensures Accepted(CheckedText(h, data, suffix))
    ensures BytesOf(CheckedText(h, data, suffix)) == data + h.output(Ripemd160.Digest(h.compress, h.init, data + suffix))[..4]
  {
    var b := data + Sum(h, data, suffix)[..4];
    BytesComeBack(b);
    assert ToBytes(Nats(b)) == b;
  }

  /** No other text is a key, but for the old public keys and the old private ones, which have
      any start that is not of the new kind. */
  lemma OtherStarts<H(!new)>(h: Hashing<H>, kind: Kind, s: string)
    requires Lays20Bytes(h) && KeyFrom(h, kind, s).Some?
    ensures kind.PublicKey? ==> Starts(s, "EOS") || Starts(s, "PUB_K1_") || Starts(s, "PUB_R1_") || Starts(s, "PUB_WA_")
    ensures kind.PrivateKey? && Starts(s, "PVT_") ==> Starts(s, "PVT_K1_") || Starts(s, "PVT_R1_")
    ensures kind.Signature? ==> Starts(s, "SIG_K1_") || Starts(s, "SIG_R1_") || Starts(s, "SIG_WA_")
  {
    hide CheckedData, KeyOf, UnsummedData, Prefix, Starts;
    Prefixes();
  }

  lemma Prefixes()
    ensures Prefix(PublicKey, 0) == "PUB_K1_" && Prefix(PublicKey, 1) == "PUB_R1_" && Prefix(PublicKey, 2) == "PUB_WA_"
    ensures Prefix(PrivateKey, 0) == "PVT_K1_" && Prefix(PrivateKey, 1) == "PVT_R1_"
    ensures Prefix(Signature, 0) == "SIG_K1_" && Prefix(Signature, 1) == "SIG_R1_" && Prefix(Signature, 2) == "SIG_WA_"
  {
  }
}

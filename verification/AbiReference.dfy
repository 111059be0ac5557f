/** The encoding of call arguments as the Solidity Contract ABI Specification defines it, section
    "Formal Specification of the Encoding": a tuple is the heads of its members followed by their tails, and
    the head of a dynamic member is the distance from the start of the tuple to its tail. Written without
    reference to the proxies, so that their hand-computed layouts can be compared with it. */
module AbiReference {
  import opened Bytes
  import opened AbiCodec

  datatype AbiValue = Uint(number: nat) | DynamicBytes(data: Data) | UintArray(items: seq<nat>)

  datatype AbiTuple = End | Member(value: AbiValue, rest: AbiTuple)

  /** The low-order `width` bytes of a number, most significant first. */
  function BigEndian(n: nat, width: nat): (r: Data)
    ensures |r| == width
  {
    if width == 0 then [] else BigEndian(n / 256, width - 1) + [n % 256]
  }

  function PadRight(data: Data): Data {
    data + Zeroes((32 - |data| % 32) % 32)
  }

  function EncItems(items: seq<nat>): (r: Data)
    ensures |r| == 32 * |items|
  {
    if items == [] then [] else BigEndian(items[0], 32) + EncItems(items[1..])
  }

  function Enc(value: AbiValue): Data {
    match value
    case Uint(n) => BigEndian(n, 32)
    case DynamicBytes(data) => BigEndian(|data|, 32) + PadRight(data)
    case UintArray(items) => BigEndian(|items|, 32) + EncItems(items)
  }

  function Head(value: AbiValue, offset: nat): (r: Data)
    ensures |r| == 32
  {
    if value.Uint? then Enc(value) else BigEndian(offset, 32)
  }

  function Tail(value: AbiValue): Data {
    if value.Uint? then [] else Enc(value)
  }

  function Count(tuple: AbiTuple): nat {
    match tuple case End => 0 case Member(_, rest) => 1 + Count(rest)
  }

  function Heads(tuple: AbiTuple, offset: nat): (r: Data)
    ensures |r| == 32 * Count(tuple)
  {
    match tuple
    case End => []
    case Member(value, rest) => Head(value, offset) + Heads(rest, offset + |Tail(value)|)
  }

  function Tails(tuple: AbiTuple): Data {
    match tuple case End => [] case Member(value, rest) => Tail(value) + Tails(rest)
  }

  function EncTuple(tuple: AbiTuple): Data {
    Heads(tuple, 32 * Count(tuple)) + Tails(tuple)
  }

  /** A function is selected by the first four bytes of the hash of its signature (section "Function
      Selector"). */
  function Selector(digest: Data): Data {
    if |digest| < 4 then digest else digest[..4]
  }

  // ----- The proxy's building blocks agree with the specification -----

  lemma {:induction false} BigEndianValue(n: nat, width: nat)
    ensures ToNat(BigEndian(n, width)) == n % Pow(256, width)
  {
    if width == 0 {
      DivModUnique(n, 1, n, 0);
    } else {
      BigEndianValue(n / 256, width - 1);
      assert BigEndian(n, width)[..width - 1] == BigEndian(n / 256, width - 1);
      RemainderSplit(n, Pow(256, width - 1));
    }
  }

  lemma RemainderSplit(n: nat, span: nat)
    requires span > 0
    ensures (n / 256) % span * 256 + n % 256 == n % (256 * span)
  {
    var q, r := (n / 256) / span, (n / 256) % span;
    assert n / 256 == q * span + r;
    MulAssociates(q, span, 256);
    assert n == q * (256 * span) + (r * 256 + n % 256);
    DivModUnique(n, 256 * span, q, r * 256 + n % 256);
  }

  lemma EncodeUIntConforms(n: nat)
    ensures EncodeUInt(n) == BigEndian(n, 32)
  {
    hide *;
    Spans();
    EncodeUIntValue(n);
    BigEndianValue(n, 32);
    ToNatInjective(EncodeUInt(n), BigEndian(n, 32));
  }

  lemma PaddingConforms(data: Data)
    ensures RightPadded(data, WholeWords(|data|)) == PadRight(data)
  {
    var missing := (32 - |data| % 32) % 32;
    assert WholeWords(|data|) == |data| + missing;
    if missing == 0 {
      assert data + Zeroes(0) == data;
    }
  }

  lemma EncodeBytesConforms(data: Data)
    ensures EncodeBytes(data) == Enc(DynamicBytes(data))
  {
    hide EncodeUInt, BigEndian;
    EncodeUIntConforms(|data|);
    PaddingConforms(data);
  }

  lemma {:induction false} EncodeTupleConforms(items: seq<nat>)
    ensures EncodeTupleUInt(items) == EncItems(items)
  {
    hide EncodeUInt, BigEndian;
    EncodeTupleIsWords(items);
    if items != [] {
      EncodeTupleConforms(items[1..]);
      EncodeTupleIsWords(items[1..]);
      EncodeUIntConforms(items[0]);
      assert Words(items) == [EncodeUInt(items[0])] + Words(items[1..]);
      FlattenConcat([EncodeUInt(items[0])], Words(items[1..]));
      FlattenOne(EncodeUInt(items[0]));
    }
  }

  /** The encoded list is the one-member tuple holding the list, offset word included. */
  lemma EncodeArrayConforms(items: seq<nat>)
    ensures EncodeArrayUInt(items) == EncTuple(Member(UintArray(items), End))
  {
    hide EncodeUInt, BigEndian, EncItems, EncodeTupleUInt;
    EncodeUIntConforms(32);
    EncodeUIntConforms(|items|);
    EncodeTupleConforms(items);
    var tuple := Member(UintArray(items), End);
    assert Count(tuple) == 1;
    assert Heads(tuple, 32) == BigEndian(32, 32) + [];
    assert Tails(tuple) == Enc(UintArray(items)) + [];
  }

  lemma MethodConforms(hash: Hash, signature: string)
    ensures Method(hash, signature) == Selector(hash(signature))
  {}

  /** With a hash of 32 bytes, a call is four bytes of it followed by the arguments. */
  lemma CallStartsWithSelector(hash: Hash, signature: string, args: seq<Data>)
    requires |hash(signature)| == 32
    ensures var call := Invocation(hash, signature, args);
      && |call| == 4 + |Flatten(args)|
      && call[..4] == hash(signature)[..4] && call[4..] == Flatten(args)
  {
    hide Flatten;
  }
}

/** Reading the model's name out of the metadata of a GGUF file, byte by byte
    (internal/ingestion/miv/hash.go). */
module Gguf {
  import opened Findings
  import opened Octets

  const MAGIC := 0x46554747
  const MAX_PAIRS := 4096
  const MAX_DEPTH := 8
  const MAX_STRING := 0x10_0000
  const U32_LIMIT := 0x1_0000_0000
  const U64_LIMIT := 0x1_0000_0000_0000_0000
  const STRING_TYPE := 8
  const ARRAY_TYPE := 9

  /** "general.name" */
  const NAME_KEY: seq<Byte> := [103, 101, 110, 101, 114, 97, 108, 46, 110, 97, 109, 101]

  datatype Error =
    | Truncated | NotGguf | OldVersion | TooManyPairs | StringTooLong | TooDeep
    | UnknownType | NameNotAString | NoName

  /** What one reading function makes of the bytes ahead of it. */
  datatype Parsed<T> = Done(value: T, rest: seq<Byte>) | Fail(error: Error)

  /** Size of the values of a type of fixed size; 0 for any other type. */
  function FixedSize(kind: nat): nat {
    if kind in {0, 1, 7} then 1
    else if kind in {2, 3} then 2
    else if kind in {4, 5, 6} then 4
    else if kind in {10, 11, 12} then 8
    else 0
  }

  function LittleEndian(bytes: seq<Byte>): nat {
    if bytes == [] then 0 else bytes[0] + 256 * LittleEndian(bytes[1..])
  }

  function Exactly(s: seq<Byte>, n: nat): Parsed<seq<Byte>> {
    if |s| < n then Fail(Truncated) else Done(s[..n], s[n..])
  }

  function Uint(s: seq<Byte>, width: nat): Parsed<nat> {
    match Exactly(s, width)
    case Done(bytes, rest) => Done(LittleEndian(bytes), rest)
    case Fail(e) => Fail(e)
  }

  function Text(s: seq<Byte>): Parsed<seq<Byte>> {
    match Uint(s, 8)
    case Fail(e) => Fail(e)
    case Done(length, rest) => if length > MAX_STRING then Fail(StringTooLong) else Exactly(rest, length)
  }

  /** An array's element type and count. */
  function ArrayHead(s: seq<Byte>): Parsed<(nat, nat)> {
    match Uint(s, 4)
    case Fail(e) => Fail(e)
    case Done(kind, afterKind) =>
      match Uint(afterKind, 8)
      case Fail(e) => Fail(e)
      case Done(count, rest) => Done((kind, count), rest)
  }

  /** A pair's key and value type. */
  function PairHead(s: seq<Byte>): Parsed<(seq<Byte>, nat)> {
    match Text(s)
    case Fail(e) => Fail(e)
    case Done(key, afterKey) =>
      match Uint(afterKey, 4)
      case Fail(e) => Fail(e)
      case Done(kind, rest) => Done((key, kind), rest)
  }

  /** Skipping one value that lies `depth` arrays deep: it takes at least one byte. */
  function Skip(s: seq<Byte>, kind: nat, depth: nat): (r: Parsed<()>)
    requires depth <= MAX_DEPTH + 1
    ensures r.Done? ==> |r.rest| < |s|
    ensures r.Fail? ==> r.error !in {NotGguf, OldVersion, TooManyPairs}
    decreases MAX_DEPTH + 1 - depth, 0
  {
    if depth > MAX_DEPTH then Fail(TooDeep)
    else if FixedSize(kind) > 0 then Forget(Exactly(s, FixedSize(kind)))
    else if kind == STRING_TYPE then Forget(Text(s))
    else if kind == ARRAY_TYPE then
      match ArrayHead(s)
      case Fail(e) => Fail(e)
      case Done(head, elements) => SkipAll(elements, head.0, head.1, depth + 1)
    else Fail(UnknownType)
  }

  /** Skipping an array's elements: a count larger than what is left of the file cannot succeed. */
  function SkipAll(s: seq<Byte>, kind: nat, count: nat, depth: nat): (r: Parsed<()>)
    requires depth <= MAX_DEPTH + 1
    ensures r.Done? ==> |r.rest| + count <= |s|
    ensures r.Fail? ==> r.error !in {NotGguf, OldVersion, TooManyPairs}
    decreases MAX_DEPTH + 1 - depth, count
  {
    if count == 0 then Done((), s)
    else
      match Skip(s, kind, depth)
      case Fail(e) => Fail(e)
      case Done(_, rest) => SkipAll(rest, kind, count - 1, depth)
  }

  function Forget(p: Parsed<seq<Byte>>): Parsed<()> {
    match p
    case Done(_, rest) => Done((), rest)
    case Fail(e) => Fail(e)
  }

  function NameAmong(s: seq<Byte>, pairs: nat): (r: Parsed<seq<Byte>>)
    ensures r.Done? ==> |r.rest| < |s|
    ensures r.Fail? ==> r.error !in {NotGguf, OldVersion, TooManyPairs}
    decreases pairs, 0
  {
    if pairs == 0 then Fail(NoName)
    else
      match PairHead(s)
      case Fail(e) => Fail(e)
      case Done(head, value) => NameOrNext(value, head.0, head.1, pairs - 1)
  }

  /** Reading on at a pair's value, with `more` pairs after it. */
  function NameOrNext(s: seq<Byte>, key: seq<Byte>, kind: nat, more: nat): (r: Parsed<seq<Byte>>)
    ensures r.Done? ==> |r.rest| < |s|
    ensures r.Fail? ==> r.error !in {NotGguf, OldVersion, TooManyPairs}
    decreases more, 1
  {
    if key == NAME_KEY then
      if kind != STRING_TYPE then Fail(NameNotAString) else Text(s)
    else
      match Skip(s, kind, 0)
      case Fail(e) => Fail(e)
      case Done(_, rest) => NameAmong(rest, more)
  }

  function Metadata(s: seq<Byte>): Parsed<seq<Byte>> {
    match Uint(s, 8)
    case Fail(e) => Fail(e)
    case Done(_, afterTensors) =>
      match Uint(afterTensors, 8)
      case Fail(e) => Fail(e)
      case Done(pairs, rest) => if pairs > MAX_PAIRS then Fail(TooManyPairs) else NameAmong(rest, pairs)
  }

  function ModelName(s: seq<Byte>): Parsed<seq<Byte>> {
    match Uint(s, 4)
    case Fail(e) => Fail(e)
    case Done(magic, afterMagic) =>
      if magic != MAGIC then Fail(NotGguf)
      else
        match Uint(afterMagic, 4)
        case Fail(e) => Fail(e)
        case Done(version, rest) => if version < 2 then Fail(OldVersion) else Metadata(rest)
  }

  // ---- The reader -------------------------------------------------------------------------------

  datatype Answer<T> = Success(value: T) | Failure(error: Error)

  /** The call answered what p says and, if it succeeded, left the reader at p's rest. */
  ghost predicate Follows<T>(p: Parsed<T>, answer: Answer<T>, remaining: seq<Byte>) {
    match p
    case Done(v, rest) => answer == Success(v) && remaining == rest
    case Fail(e) => answer == Failure(e)
  }

  class Reader {
    const data: seq<Byte>
    var pos: nat

    ghost predicate Valid() reads this { pos <= |data| }

    ghost function Remaining(): seq<Byte>
      reads this
      requires Valid()
    {
      data[pos..]
    }

    constructor (data: seq<Byte>)
      ensures Valid() && Remaining() == data
    {
      this.data, pos := data, 0;
    }

    method ReadFull(n: nat) returns (r: Answer<seq<Byte>>)
      requires Valid()
      modifies this
      ensures Valid() && Follows(Exactly(old(Remaining()), n), r, Remaining())
    {
      if |data| - pos < n {
        pos := |data|;
        return Failure(Truncated);
      }
      r := Success(data[pos..pos + n]);
      assert data[pos..][..n] == data[pos..pos + n];
      pos := pos + n;
    }

    method ReadUint(width: nat) returns (r: Answer<nat>)
      requires Valid()
      modifies this
      ensures Valid() && Follows(Uint(old(Remaining()), width), r, Remaining())
    {
      var bytes := ReadFull(width);
      if bytes.Failure? {
        return Failure(bytes.error);
      }
      return Success(LittleEndian(bytes.value));
    }

    method ReadString() returns (r: Answer<seq<Byte>>)
      requires Valid()
      modifies this
      ensures Valid() && Follows(Text(old(Remaining())), r, Remaining())
    {
      var length := ReadUint(8);
      if length.Failure? {
        return Failure(length.error);
      }
      if length.value > MAX_STRING {
        return Failure(StringTooLong);
      }
      r := ReadFull(length.value);
    }

    method SkipValue(kind: nat, depth: nat) returns (r: Answer<()>)
      requires Valid() && depth <= MAX_DEPTH + 1
      modifies this
      ensures Valid() && Follows(Skip(old(Remaining()), kind, depth), r, Remaining())
      decreases MAX_DEPTH + 1 - depth, 0, 1
    {
      if depth > MAX_DEPTH {
        return Failure(TooDeep);
      }
      if kind == STRING_TYPE {
        var text := ReadString();
        return if text.Failure? then Failure(text.error) else Success(());
      }
      if kind == ARRAY_TYPE {
        r := SkipArray(depth);
        return;
      }
      if FixedSize(kind) == 0 {
        return Failure(UnknownType);
      }
      var bytes := ReadFull(FixedSize(kind));
      return if bytes.Failure? then Failure(bytes.error) else Success(());
    }

    method SkipArray(depth: nat) returns (r: Answer<()>)
      requires Valid() && depth <= MAX_DEPTH
      modifies this
      ensures Valid() && Follows(Skip(old(Remaining()), ARRAY_TYPE, depth), r, Remaining())
      decreases MAX_DEPTH + 1 - depth, 0, 0
    {
      var elemKind := ReadUint(4);
      if elemKind.Failure? {
        return Failure(elemKind.error);
      }
      var count := ReadUint(8);
      if count.Failure? {
        return Failure(count.error);
      }
      r := SkipElements(elemKind.value, count.value, depth + 1);
    }

    method SkipElements(kind: nat, count: nat, depth: nat) returns (r: Answer<()>)
      requires Valid() && depth <= MAX_DEPTH + 1
      modifies this
      ensures Valid() && Follows(SkipAll(old(Remaining()), kind, count, depth), r, Remaining())
      decreases MAX_DEPTH + 1 - depth, 1
    {
      for i := 0 to count
        invariant Valid()
        invariant SkipAll(old(Remaining()), kind, count, depth) == SkipAll(Remaining(), kind, count - i, depth)
      {
        r := SkipValue(kind, depth);
        if r.Failure? {
          return;
        }
      }
      return Success(());
    }

    method ReadModelID() returns (r: Answer<seq<Byte>>)
      requires Valid()
      modifies this
      ensures Valid() && Follows(ModelName(old(Remaining())), r, Remaining())
    {
      var magic := ReadUint(4);
      if magic.Failure? {
        return Failure(magic.error);
      }
      if magic.value != MAGIC {
        return Failure(NotGguf);
      }
      var version := ReadUint(4);
      if version.Failure? {
        return Failure(version.error);
      }
      if version.value < 2 {
        return Failure(OldVersion);
      }
      var tensors := ReadUint(8);
      if tensors.Failure? {
        return Failure(tensors.error);
      }
      var pairs := ReadUint(8);
      if pairs.Failure? {
        return Failure(pairs.error);
      }
      if pairs.value > MAX_PAIRS {
        return Failure(TooManyPairs);
      }
      r := ReadName(pairs.value);
    }

    method ReadName(pairs: nat) returns (r: Answer<seq<Byte>>)
      requires Valid()
      modifies this
      ensures Valid() && Follows(NameAmong(old(Remaining()), pairs), r, Remaining())
    {
      for i := 0 to pairs
        invariant Valid()
        invariant NameAmong(old(Remaining()), pairs) == NameAmong(Remaining(), pairs - i)
      {
        var key := ReadString();
        if key.Failure? {
          return Failure(key.error);
        }
        var kind := ReadUint(4);
        if kind.Failure? {
          return Failure(kind.error);
        }
        if key.value == NAME_KEY {
          if kind.value != STRING_TYPE {
            return Failure(NameNotAString);
          }
          r := ReadString();
          return;
        }
        var skipped := SkipValue(kind.value, 0);
        if skipped.Failure? {
          return Failure(skipped.error);
        }
      }
      return Failure(NoName);
    }
  }

  // ---- Trailing bytes and cuts ------------------------------------------------------------------

  /** With t appended to its input, a reading that went through goes through in the same way; one
      that ran out of input can only go through by using up part of t; and one that failed for
      another reason fails in the same way. */
  ghost predicate Stable<T>(short: Parsed<T>, long: Parsed<T>, t: seq<Byte>) {
    match short
    case Done(v, rest) => long == Done(v, rest + t)
    case Fail(Truncated) => long.Done? ==> |long.rest| < |t|
    case Fail(_) => long == short
  }

  lemma ExactlyStable(s: seq<Byte>, n: nat, t: seq<Byte>)
    ensures Stable(Exactly(s, n), Exactly(s + t, n), t)
  {
    if n <= |s| {
      assert (s + t)[..n] == s[..n] && (s + t)[n..] == s[n..] + t;
    }
  }

  lemma TextStable(s: seq<Byte>, t: seq<Byte>)
    ensures Stable(Text(s), Text(s + t), t)
  {
    ExactlyStable(s, 8, t);
    if Uint(s, 8).Done? {
      ExactlyStable(Uint(s, 8).rest, Uint(s, 8).value, t);
    }
  }

  lemma ArrayHeadStable(s: seq<Byte>, t: seq<Byte>)
    ensures Stable(ArrayHead(s), ArrayHead(s + t), t)
  {
    ExactlyStable(s, 4, t);
    if Uint(s, 4).Done? {
      ExactlyStable(Uint(s, 4).rest, 8, t);
    }
  }

  lemma PairHeadStable(s: seq<Byte>, t: seq<Byte>)
    ensures Stable(PairHead(s), PairHead(s + t), t)
  {
    TextStable(s, t);
    if Text(s).Done? {
      ExactlyStable(Text(s).rest, 4, t);
    }
  }

  lemma {:induction false} SkipStable(s: seq<Byte>, kind: nat, depth: nat, t: seq<Byte>)
    requires depth <= MAX_DEPTH + 1
    ensures Stable(Skip(s, kind, depth), Skip(s + t, kind, depth), t)
    decreases MAX_DEPTH + 1 - depth, 0
  {
    if depth <= MAX_DEPTH {
      if FixedSize(kind) > 0 {
        ExactlyStable(s, FixedSize(kind), t);
      } else if kind == STRING_TYPE {
        TextStable(s, t);
      } else if kind == ARRAY_TYPE {
        ArrayHeadStable(s, t);
        if ArrayHead(s).Done? {
          SkipAllStable(ArrayHead(s).rest, ArrayHead(s).value.0, ArrayHead(s).value.1, depth + 1, t);
        }
      }
    }
  }

  lemma {:induction false} SkipAllStable(s: seq<Byte>, kind: nat, count: nat, depth: nat, t: seq<Byte>)
    requires depth <= MAX_DEPTH + 1
    ensures Stable(SkipAll(s, kind, count, depth), SkipAll(s + t, kind, count, depth), t)
    decreases MAX_DEPTH + 1 - depth, count
  {
    if count > 0 {
      SkipStable(s, kind, depth, t);
      if Skip(s, kind, depth).Done? {
        SkipAllStable(Skip(s, kind, depth).rest, kind, count - 1, depth, t);
      }
    }
  }

  lemma {:induction false} NameAmongStable(s: seq<Byte>, pairs: nat, t: seq<Byte>)
    ensures Stable(NameAmong(s, pairs), NameAmong(s + t, pairs), t)
    decreases pairs, 0
  {
    if pairs > 0 {
      PairHeadStable(s, t);
      if PairHead(s).Done? {
        NameOrNextStable(PairHead(s).rest, PairHead(s).value.0, PairHead(s).value.1, pairs - 1, t);
      }
    }
  }

  lemma {:induction false} NameOrNextStable(s: seq<Byte>, key: seq<Byte>, kind: nat, more: nat, t: seq<Byte>)
    ensures Stable(NameOrNext(s, key, kind, more), NameOrNext(s + t, key, kind, more), t)
    decreases more, 1
  {
    if key == NAME_KEY {
      TextStable(s, t);
    } else {
      SkipStable(s, kind, 0, t);
      if Skip(s, kind, 0).Done? {
        NameAmongStable(Skip(s, kind, 0).rest, more, t);
      }
    }
  }

  lemma MetadataStable(s: seq<Byte>, t: seq<Byte>)
    ensures Stable(Metadata(s), Metadata(s + t), t)
  {
    ExactlyStable(s, 8, t);
    if Uint(s, 8).Done? {
      var afterTensors := Uint(s, 8).rest;
      ExactlyStable(afterTensors, 8, t);
      if Uint(afterTensors, 8).Done? {
        NameAmongStable(Uint(afterTensors, 8).rest, Uint(afterTensors, 8).value, t);
      }
    }
  }

  /** Trailing bytes never change the answer, except from "the input ended". */
  lemma TrailingBytesAreIrrelevant(s: seq<Byte>, t: seq<Byte>)
    ensures Stable(ModelName(s), ModelName(s + t), t)
  {
    ExactlyStable(s, 4, t);
    if Uint(s, 4).Done? {
      var afterMagic := Uint(s, 4).rest;
      ExactlyStable(afterMagic, 4, t);
      if Uint(afterMagic, 4).Done? {
        MetadataStable(Uint(afterMagic, 4).rest, t);
      }
    }
  }

  /** A file cut short still gives its name exactly if the cut is not before the end of the name;
      any earlier cut is reported as the end of input. */
  lemma CutsBeforeTheNameFail(s: seq<Byte>, cut: nat)
    requires ModelName(s).Done? && cut <= |s|
    ensures |ModelName(s).rest| <= |s|
    ensures |s| - |ModelName(s).rest| <= cut <==> ModelName(s[..cut]).Done?
    ensures ModelName(s[..cut]).Done? ==> ModelName(s[..cut]).value == ModelName(s).value
    ensures ModelName(s[..cut]).Fail? ==> ModelName(s[..cut]).error == Truncated
  {
    assert s[..cut] + s[cut..] == s;
    TrailingBytesAreIrrelevant(s[..cut], s[cut..]);
  }

  // ---- Encoded files ----------------------------------------------------------------------------

  function Power256(n: nat): nat {
    if n == 0 then 1 else 256 * Power256(n - 1)
  }

  function Bytes(n: nat, width: nat): seq<Byte> {
    if width == 0 then [] else [n % 256] + Bytes(n / 256, width - 1)
  }

  lemma {:induction false} LittleEndianOfBytes(n: nat, width: nat)
    requires n < Power256(width)
    ensures |Bytes(n, width)| == width && LittleEndian(Bytes(n, width)) == n
  {
    if width > 0 {
      LittleEndianOfBytes(n / 256, width - 1);
    }
  }

  /** Reading an encoded number gives the number. */
  lemma UintOfBytes(n: nat, width: nat, rest: seq<Byte>)
    requires (width == 4 && n < U32_LIMIT) || (width == 8 && n < U64_LIMIT)
    ensures Uint(Bytes(n, width) + rest, width) == Done(n, rest)
  {
    assert Power256(4) == U32_LIMIT && Power256(8) == U64_LIMIT;
    LittleEndianOfBytes(n, width);
    assert (Bytes(n, width) + rest)[..width] == Bytes(n, width);
  }

  function EncodeText(text: seq<Byte>): seq<Byte> {
    Bytes(|text|, 8) + text
  }

  lemma TextOfEncoded(text: seq<Byte>, rest: seq<Byte>)
    requires |text| < U64_LIMIT
    ensures Text(EncodeText(text) + rest) == if |text| <= MAX_STRING then Done(text, rest) else Fail(StringTooLong)
  {
    assert EncodeText(text) + rest == Bytes(|text|, 8) + (text + rest);
    UintOfBytes(|text|, 8, text + rest);
    assert (text + rest)[..|text|] == text && (text + rest)[|text|..] == rest;
  }

  /** The types of fixed size that the format has. */
  datatype ScalarType =
    | Uint8 | Int8 | Bool | Uint16 | Int16 | Uint32 | Int32 | Float32 | Uint64 | Int64 | Float64
  {
    function Code(): nat {
      match this
      case Uint8 => 0
      case Int8 => 1
      case Uint16 => 2
      case Int16 => 3
      case Uint32 => 4
      case Int32 => 5
      case Float32 => 6
      case Bool => 7
      case Uint64 => 10
      case Int64 => 11
      case Float64 => 12
    }

    function Width(): nat {
      match this
      case Uint8 => 1
      case Int8 => 1
      case Bool => 1
      case Uint16 => 2
      case Int16 => 2
      case Uint32 => 4
      case Int32 => 4
      case Float32 => 4
      case Uint64 => 8
      case Int64 => 8
      case Float64 => 8
    }
  }

  datatype Value =
    | Scalar(format: ScalarType, bits: nat)
    | String(text: seq<Byte>)
    | Array(elemKind: nat, elems: seq<Value>)

  function KindOf(v: Value): nat {
    match v
    case Scalar(t, _) => t.Code()
    case String(_) => 8
    case Array(_, _) => 9
  }

  /** The values that can be written down: an array's elements are of one type. */
  ghost predicate Encodable(v: Value) {
    match v
    case Scalar(t, bits) => bits < Power256(t.Width())
    case String(text) => |text| < U64_LIMIT
    case Array(elemKind, elems) =>
      elemKind < U32_LIMIT && |elems| < U64_LIMIT &&
      forall e | e in elems :: KindOf(e) == elemKind && Encodable(e)
  }

  function Encode(v: Value): seq<Byte> {
    match v
    case Scalar(t, bits) => Bytes(bits, t.Width())
    case String(text) => EncodeText(text)
    case Array(elemKind, elems) => Bytes(elemKind, 4) + Bytes(|elems|, 8) + EncodeAll(elems)
  }

  function EncodeAll(vs: seq<Value>): seq<Byte> {
    if vs == [] then [] else Encode(vs[0]) + EncodeAll(vs[1..])
  }

  /** Why a value cannot be skipped that lies `depth` arrays deep: for its first element that is too
      deep or too long. */
  function ErrorIn(v: Value, depth: nat): Option<Error> {
    if depth > 8 then Some(TooDeep)
    else
      match v
      case Scalar(_, _) => None
      case String(text) => if |text| > 0x10_0000 then Some(StringTooLong) else None
      case Array(_, elems) => ErrorAmong(elems, depth + 1)
  }

  function ErrorAmong(vs: seq<Value>, depth: nat): Option<Error> {
    if vs == [] then None
    else if ErrorIn(vs[0], depth).Some? then ErrorIn(vs[0], depth)
    else ErrorAmong(vs[1..], depth)
  }

  /** How many arrays lie around the deepest element of v. */
  function Nesting(v: Value): nat {
    match v
    case Array(_, elems) => if elems == [] then 0 else 1 + Deepest(elems)
    case _ => 0
  }

  function Deepest(vs: seq<Value>): nat {
    if vs == [] then 0
    else
      var first, others := Nesting(vs[0]), Deepest(vs[1..]);
      if first > others then first else others
  }

  ghost predicate StringsWithinLimit(v: Value) {
    match v
    case Scalar(_, _) => true
    case String(text) => |text| <= 0x10_0000
    case Array(_, elems) => forall e | e in elems :: StringsWithinLimit(e)
  }

  /** The values skipped without an error. */
  ghost predicate Skippable(v: Value) {
    Nesting(v) <= 8 && StringsWithinLimit(v)
  }

  /** There is no error exactly if no element lies deeper than level 8 and all strings are within
      the limit. */
  lemma {:induction false} NoErrorExactlyWhen(v: Value, depth: nat)
    ensures ErrorIn(v, depth) == None <==> depth + Nesting(v) <= 8 && StringsWithinLimit(v)
    decreases v
  {
    if v.Array? {
      NoErrorsExactlyWhen(v.elems, depth + 1);
    }
  }

  lemma {:induction false} NoErrorsExactlyWhen(vs: seq<Value>, depth: nat)
    ensures ErrorAmong(vs, depth) == None
       <==> vs == [] || (depth + Deepest(vs) <= 8 && forall v | v in vs :: StringsWithinLimit(v))
    decreases vs
  {
    if vs != [] {
      NoErrorExactlyWhen(vs[0], depth);
      NoErrorsExactlyWhen(vs[1..], depth);
      assert (forall v | v in vs :: StringsWithinLimit(v))
        <==> StringsWithinLimit(vs[0]) && forall v | v in vs[1..] :: StringsWithinLimit(v);
    }
  }

  lemma Regroup2(a: seq<Byte>, b: seq<Byte>, rest: seq<Byte>)
    ensures a + b + rest == a + (b + rest)
  {
  }

  lemma Regroup3(a: seq<Byte>, b: seq<Byte>, c: seq<Byte>, rest: seq<Byte>)
    ensures a + b + c + rest == a + b + (c + rest)
  {
  }

  lemma Regroup4(a: seq<Byte>, b: seq<Byte>, c: seq<Byte>, d: seq<Byte>, rest: seq<Byte>)
    ensures a + b + c + d + rest == a + b + (c + (d + rest))
  {
  }

  /** What reading makes of an input whose error, if any, is known. */
  predicate Ends(p: Parsed<()>, error: Option<Error>, rest: seq<Byte>) {
    p == match error
         case None => Done((), rest)
         case Some(e) => Fail(e)
  }

  /** Skipping an encoded value takes exactly its bytes, or fails for its first error. */
  lemma {:induction false} SkipOfEncoded(v: Value, rest: seq<Byte>, depth: nat)
    requires Encodable(v) && depth <= MAX_DEPTH + 1
    ensures Ends(Skip(Encode(v) + rest, KindOf(v), depth), ErrorIn(v, depth), rest)
    decreases v
  {
    match v
    case Scalar(t, bits) => SkipOfScalar(t, bits, rest, depth);
    case String(text) => SkipOfString(text, rest, depth);
    case Array(elemKind, elems) =>
      if depth <= MAX_DEPTH {
        SkipOfArray(elemKind, elems, rest, depth);
        SkipAllOfEncoded(elems, elemKind, rest, depth + 1);
      }
  }

  lemma SkipOfScalar(t: ScalarType, bits: nat, rest: seq<Byte>, depth: nat)
    requires bits < Power256(t.Width()) && depth <= MAX_DEPTH + 1
    ensures Skip(Bytes(bits, t.Width()) + rest, t.Code(), depth) == if depth <= 8 then Done((), rest) else Fail(TooDeep)
  {
    LittleEndianOfBytes(bits, t.Width());
    var bytes := Bytes(bits, t.Width());
    assert (bytes + rest)[..|bytes|] == bytes && (bytes + rest)[|bytes|..] == rest;
  }

  lemma SkipOfString(text: seq<Byte>, rest: seq<Byte>, depth: nat)
    requires |text| < U64_LIMIT && depth <= MAX_DEPTH + 1
    ensures Skip(EncodeText(text) + rest, 8, depth)
         == if depth > 8 then Fail(TooDeep) else if |text| <= 0x10_0000 then Done((), rest) else Fail(StringTooLong)
  {
    TextOfEncoded(text, rest);
  }

  /** Whatever the bytes are, a type's width is what is skipped, and any other type is an error. */
  lemma SkipOfKind(s: seq<Byte>, kind: nat, depth: nat)
    requires depth <= 8 && kind != 8 && kind != 9
    ensures Skip(s, kind, depth) ==
      if kind in {0, 1, 7} then if |s| >= 1 then Done((), s[1..]) else Fail(Truncated)
      else if kind in {2, 3} then if |s| >= 2 then Done((), s[2..]) else Fail(Truncated)
      else if kind in {4, 5, 6} then if |s| >= 4 then Done((), s[4..]) else Fail(Truncated)
      else if kind in {10, 11, 12} then if |s| >= 8 then Done((), s[8..]) else Fail(Truncated)
      else Fail(UnknownType)
  {
  }

  /** Skipping an encoded array is skipping its elements. */
  lemma SkipOfArray(elemKind: nat, elems: seq<Value>, rest: seq<Byte>, depth: nat)
    requires elemKind < U32_LIMIT && |elems| < U64_LIMIT && depth <= MAX_DEPTH
    ensures Skip(Encode(Array(elemKind, elems)) + rest, 9, depth)
         == SkipAll(EncodeAll(elems) + rest, elemKind, |elems|, depth + 1)
  {
    Regroup3(Bytes(elemKind, 4), Bytes(|elems|, 8), EncodeAll(elems), rest);
    ArrayHeadOfEncoded(elemKind, |elems|, EncodeAll(elems) + rest);
  }

  lemma ArrayHeadOfEncoded(kind: nat, count: nat, rest: seq<Byte>)
    requires kind < U32_LIMIT && count < U64_LIMIT
    ensures ArrayHead(Bytes(kind, 4) + Bytes(count, 8) + rest) == Done((kind, count), rest)
  {
    assert Bytes(kind, 4) + Bytes(count, 8) + rest == Bytes(kind, 4) + (Bytes(count, 8) + rest);
    UintOfBytes(kind, 4, Bytes(count, 8) + rest);
    UintOfBytes(count, 8, rest);
  }

  lemma {:induction false} SkipAllOfEncoded(vs: seq<Value>, kind: nat, rest: seq<Byte>, depth: nat)
    requires depth <= MAX_DEPTH + 1
    requires forall v | v in vs :: KindOf(v) == kind && Encodable(v)
    ensures Ends(SkipAll(EncodeAll(vs) + rest, kind, |vs|, depth), ErrorAmong(vs, depth), rest)
    decreases vs
  {
    if vs == [] {
      assert [] + rest == rest;
    } else {
      var others := EncodeAll(vs[1..]) + rest;
      Regroup2(Encode(vs[0]), EncodeAll(vs[1..]), rest);
      assert vs[0] in vs && forall v | v in vs[1..] :: v in vs;
      SkipOfEncoded(vs[0], others, depth);
      SkipAllOfEncoded(vs[1..], kind, rest, depth);
    }
  }

  datatype Pair = Pair(key: seq<Byte>, value: Value)

  datatype Header = Header(version: nat, tensors: nat, pairs: seq<Pair>)

  function EncodePairs(pairs: seq<Pair>): seq<Byte> {
    if pairs == [] then []
    else EncodeText(pairs[0].key) + Bytes(KindOf(pairs[0].value), 4) + Encode(pairs[0].value) + EncodePairs(pairs[1..])
  }

  function Octet(c: char): Byte {
    if c < 128 as char then c as int else 0
  }

  function Ascii(s: string): seq<Byte> {
    seq(|s|, i requires 0 <= i < |s| => Octet(s[i]))
  }

  function EncodeHeader(h: Header): seq<Byte> {
    Ascii("GGUF") + (Bytes(h.version, 4) + (Bytes(h.tensors, 8) + (Bytes(|h.pairs|, 8) + EncodePairs(h.pairs))))
  }

  ghost predicate EncodablePairs(pairs: seq<Pair>) {
    forall p | p in pairs :: |p.key| < U64_LIMIT && Encodable(p.value)
  }

  ghost predicate EncodableHeader(h: Header) {
    h.version < U32_LIMIT && h.tensors < U64_LIMIT && |h.pairs| < U64_LIMIT && EncodablePairs(h.pairs)
  }

  /** What a file's pairs say about the name: the first general.name if it is a string within the
      limit; or the first error before it, or its own, or that there is none. */
  function NameOrError(pairs: seq<Pair>): Answer<seq<Byte>> {
    if pairs == [] then Failure(NoName)
    else
      var key, v := pairs[0].key, pairs[0].value;
      if |key| > 0x10_0000 then Failure(StringTooLong)
      else if key == Ascii("general.name") then
        if !v.String? then Failure(NameNotAString)
        else if |v.text| > 0x10_0000 then Failure(StringTooLong)
        else Success(v.text)
      else if ErrorIn(v, 0).Some? then Failure(ErrorIn(v, 0).value)
      else NameOrError(pairs[1..])
  }

  /** Reading answers this. */
  predicate Says(p: Parsed<seq<Byte>>, answer: Answer<seq<Byte>>) {
    match answer
    case Success(name) => p.Done? && p.value == name
    case Failure(e) => p == Fail(e)
  }

  lemma NameKeyIsAscii()
    ensures NAME_KEY == Ascii("general.name")
  {
  }

  lemma {:induction false} NameAmongEncoded(pairs: seq<Pair>, rest: seq<Byte>)
    requires EncodablePairs(pairs)
    ensures Says(NameAmong(EncodePairs(pairs) + rest, |pairs|), NameOrError(pairs))
    decreases |pairs|, 1
  {
    if pairs != [] {
      FirstPairHead(pairs, rest);
      if |pairs[0].key| <= MAX_STRING {
        NameOrNextEncoded(pairs, rest);
      }
    }
  }

  lemma FirstPairHead(pairs: seq<Pair>, rest: seq<Byte>)
    requires EncodablePairs(pairs) && pairs != []
    ensures var key, v := pairs[0].key, pairs[0].value;
      PairHead(EncodePairs(pairs) + rest)
      == if |key| <= MAX_STRING then Done((key, KindOf(v)), Encode(v) + (EncodePairs(pairs[1..]) + rest))
         else Fail(StringTooLong)
  {
    var key, v := pairs[0].key, pairs[0].value;
    assert pairs[0] in pairs;
    Regroup4(EncodeText(key), Bytes(KindOf(v), 4), Encode(v), EncodePairs(pairs[1..]), rest);
    PairHeadOfEncoded(key, KindOf(v), Encode(v) + (EncodePairs(pairs[1..]) + rest));
  }

  lemma {:induction false} NameOrNextEncoded(pairs: seq<Pair>, rest: seq<Byte>)
    requires EncodablePairs(pairs) && pairs != [] && |pairs[0].key| <= MAX_STRING
    ensures var value := Encode(pairs[0].value) + (EncodePairs(pairs[1..]) + rest);
      Says(NameOrNext(value, pairs[0].key, KindOf(pairs[0].value), |pairs| - 1), NameOrError(pairs))
    decreases |pairs|, 0
  {
    var v, others := pairs[0].value, EncodePairs(pairs[1..]) + rest;
    assert pairs[0] in pairs;
    NameKeyIsAscii();
    if pairs[0].key == NAME_KEY {
      NameOfEncoded(v, others, |pairs| - 1);
    } else {
      SkipOfEncoded(v, others, 0);
      NameAmongEncoded(pairs[1..], rest);
    }
  }

  lemma PairHeadOfEncoded(key: seq<Byte>, kind: nat, rest: seq<Byte>)
    requires |key| < U64_LIMIT && kind < U32_LIMIT
    ensures PairHead(EncodeText(key) + Bytes(kind, 4) + rest)
         == if |key| <= MAX_STRING then Done((key, kind), rest) else Fail(StringTooLong)
  {
    assert EncodeText(key) + Bytes(kind, 4) + rest == EncodeText(key) + (Bytes(kind, 4) + rest);
    TextOfEncoded(key, Bytes(kind, 4) + rest);
    UintOfBytes(kind, 4, rest);
  }

  lemma NameOfEncoded(v: Value, others: seq<Byte>, more: nat)
    requires Encodable(v)
    ensures Says(NameOrNext(Encode(v) + others, NAME_KEY, KindOf(v), more),
      if !v.String? then Failure(NameNotAString)
      else if |v.text| > 0x10_0000 then Failure(StringTooLong)
      else Success(v.text))
  {
    assert KindOf(v) == STRING_TYPE <==> v.String?;
    if v.String? {
      TextOfEncoded(v.text, others);
    }
  }

  /** For every header and whatever follows it: below version 2 it is rejected, and above 4096
      pairs; otherwise its pairs decide the answer. */
  lemma ModelNameOfEncoded(h: Header, tail: seq<Byte>)
    requires EncodableHeader(h)
    ensures Says(ModelName(EncodeHeader(h) + tail),
      if h.version < 2 then Failure(OldVersion)
      else if |h.pairs| > 4096 then Failure(TooManyPairs)
      else NameOrError(h.pairs))
  {
    var afterCount := EncodePairs(h.pairs) + tail;
    var afterTensors := Bytes(|h.pairs|, 8) + afterCount;
    var afterVersion := Bytes(h.tensors, 8) + afterTensors;
    HeaderSplits(h, tail);
    MagicIsAscii();
    UintOfBytes(MAGIC, 4, Bytes(h.version, 4) + afterVersion);
    UintOfBytes(h.version, 4, afterVersion);
    MetadataOfEncoded(h.tensors, |h.pairs|, afterCount);
    NameAmongEncoded(h.pairs, tail);
  }

  lemma MagicIsAscii()
    ensures Bytes(MAGIC, 4) == Ascii("GGUF")
  {
  }

  lemma MetadataOfEncoded(tensors: nat, pairs: nat, rest: seq<Byte>)
    requires tensors < U64_LIMIT && pairs < U64_LIMIT
    ensures Metadata(Bytes(tensors, 8) + (Bytes(pairs, 8) + rest))
         == if pairs > MAX_PAIRS then Fail(TooManyPairs) else NameAmong(rest, pairs)
  {
    UintOfBytes(tensors, 8, Bytes(pairs, 8) + rest);
    UintOfBytes(pairs, 8, rest);
  }

  lemma HeaderSplits(h: Header, tail: seq<Byte>)
    ensures EncodeHeader(h) + tail
         == Ascii("GGUF") + (Bytes(h.version, 4) + (Bytes(h.tensors, 8) + (Bytes(|h.pairs|, 8) + (EncodePairs(h.pairs) + tail))))
  {
    Regroup5(Ascii("GGUF"), Bytes(h.version, 4), Bytes(h.tensors, 8), Bytes(|h.pairs|, 8), EncodePairs(h.pairs), tail);
  }

  lemma Regroup5(a: seq<Byte>, b: seq<Byte>, c: seq<Byte>, d: seq<Byte>, e: seq<Byte>, rest: seq<Byte>)
    ensures a + (b + (c + (d + e))) + rest == a + (b + (c + (d + (e + rest))))
  {
  }

  /** Pair i is the first one with the name's key, everything before it can be skipped, and it
      holds the given name. */
  ghost predicate FirstName(pairs: seq<Pair>, i: nat, name: seq<Byte>) {
    && i < |pairs| && pairs[i].key == Ascii("general.name") && pairs[i].value == String(name) && |name| <= 0x10_0000
    && forall j | 0 <= j < i ::
         pairs[j].key != Ascii("general.name") && |pairs[j].key| <= 0x10_0000 && Skippable(pairs[j].value)
  }

  ghost predicate Names(pairs: seq<Pair>, name: seq<Byte>) {
    exists i :: FirstName(pairs, i, name)
  }

  /** A name is found exactly if the first general.name is a string within the limit with only
      skippable pairs before it. */
  lemma {:induction false} NamedExactlyWhen(pairs: seq<Pair>, name: seq<Byte>)
    ensures NameOrError(pairs) == Success(name) <==> Names(pairs, name)
  {
    if pairs != [] {
      NoErrorExactlyWhen(pairs[0].value, 0);
      NamedExactlyWhen(pairs[1..], name);
      if pairs[0].key != Ascii("general.name") {
        NamesSplits(pairs, name);
      } else {
        FirstPairNames(pairs, name);
      }
    }
  }

  lemma NamesSplits(pairs: seq<Pair>, name: seq<Byte>)
    requires pairs != [] && pairs[0].key != Ascii("general.name")
    ensures Names(pairs, name)
        <==> |pairs[0].key| <= 0x10_0000 && Skippable(pairs[0].value) && Names(pairs[1..], name)
  {
    if i: nat :| FirstName(pairs, i, name) {
      assert FirstName(pairs[1..], i - 1, name);
    }
    if |pairs[0].key| <= 0x10_0000 && Skippable(pairs[0].value) && Names(pairs[1..], name) {
      var i: nat :| FirstName(pairs[1..], i, name);
      assert FirstName(pairs, i + 1, name);
    }
  }

  lemma FirstPairNames(pairs: seq<Pair>, name: seq<Byte>)
    requires pairs != [] && pairs[0].key == Ascii("general.name")
    ensures Names(pairs, name) <==> pairs[0].value == String(name) && |name| <= 0x10_0000
  {
    if pairs[0].value == String(name) && |name| <= 0x10_0000 {
      assert FirstName(pairs, 0, name);
    }
  }

  /** Whatever the bytes are: what does not begin with the magic is no GGUF file. */
  lemma NotGgufExactlyWhen(s: seq<Byte>)
    ensures ModelName(s) == Fail(NotGguf) <==> |s| >= 4 && s[..4] != Ascii("GGUF")
  {
    if |s| >= 4 {
      MagicOnly(s[0], s[1], s[2], s[3]);
      assert s[..4] == [s[0], s[1], s[2], s[3]];
    }
  }

  lemma LittleEndianCons(b: Byte, rest: seq<Byte>)
    ensures LittleEndian([b] + rest) == b + 256 * LittleEndian(rest)
  {
    assert ([b] + rest)[1..] == rest;
  }

  lemma MagicOnly(a: Byte, b: Byte, c: Byte, d: Byte)
    ensures LittleEndian([a, b, c, d]) == MAGIC <==> [a, b, c, d] == Ascii("GGUF")
  {
    LittleEndianCons(d, []);
    LittleEndianCons(c, [d]);
    LittleEndianCons(b, [c, d]);
    LittleEndianCons(a, [b, c, d]);
    assert [d] + [] == [d] && [c] + [d] == [c, d] && [b] + [c, d] == [b, c, d] && [a] + [b, c, d] == [a, b, c, d];
    assert Ascii("GGUF") == [71, 71, 85, 70];
  }
}

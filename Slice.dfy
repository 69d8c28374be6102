/** Voron's Slice: a copyable view over a byte string whose user-defined flag bits carry
    the slice's role (an ordinary key, or one of the two range sentinels). */
module Voron {
  import opened Bytes
  import opened Wrappers

  /** ByteStringType values used here (the enum lives in the byte-string allocator). */
  const Mutable: bv8 := 0x01
  const UserDefined1: bv8 := 0x10
  const UserDefined2: bv8 := 0x20
  const UserDefined3: bv8 := 0x40
  const UserDefinedMask: bv8 := 0x70

  /** SliceOptions values: a role is stored in the user-defined bits of the content's flags. */
  const Key: bv8 := 0x00
  const BeforeAllKeysOption: bv8 := 0x10
  const AfterAllKeysOption: bv8 := 0x20

  lemma OptionsAreUserDefined()
    ensures UserDefinedMask == UserDefined1 | UserDefined2 | UserDefined3
    ensures Key & !UserDefinedMask == 0
    ensures BeforeAllKeysOption == UserDefined1 && AfterAllKeysOption == UserDefined2
  {
  }

  /** Errors the source throws. */
  datatype Error = InvalidOperation

  /** A byte string handle: whether it points at storage, the bytes it holds and its flags word. */
  datatype ByteString = ByteString(hasValue: bool, bytes: seq<byte>, flags: bv8)
  {
    /** SetUserDefinedFlags, taken as: replace the user-defined bits of the flags with those of
        userFlags and keep every other bit. */
    function SetUserDefinedFlags(userFlags: bv8): (b: ByteString)
      ensures b.hasValue == hasValue && b.bytes == bytes
      ensures b.flags & UserDefinedMask == userFlags & UserDefinedMask
      ensures b.flags & !UserDefinedMask == flags & !UserDefinedMask
    {
      this.(flags := (flags & !UserDefinedMask) | (userFlags & UserDefinedMask))
    }
  }

  /** The allocator's From/Clone: a fresh byte string holding a copy of bytes, with flags type. */
  function Allocate(bytes: seq<byte>, stringType: bv8): ByteString
  {
    ByteString(true, bytes, stringType)
  }

  datatype Slice = Slice(content: ByteString)
  {
    /** new Slice(options, content): the content with its user-defined bits set to options. */
    static function WithOptions(options: bv8, content: ByteString): (s: Slice)
      ensures s.content.hasValue == content.hasValue && s.content.bytes == content.bytes
      ensures s.content.flags & !UserDefinedMask == content.flags & !UserDefinedMask
    {
      Slice(content.SetUserDefinedFlags(options))
    }

    predicate HasValue() {
      content.hasValue
    }

    function Size(): (n: int)
      ensures n >= 0
    {
      |content.bytes|
    }

    /** The role of the slice: the user-defined bits of the content's flags. */
    function Options(): (o: bv8)
      ensures o & !UserDefinedMask == 0
    {
      content.flags & UserDefinedMask
    }

    /** this[index]: fails on a slice without content; the index is not range checked. */
    function At(index: int): (r: Result<byte, Error>)
      requires HasValue() ==> 0 <= index < Size()
      ensures r.Failure? <==> !HasValue()
      ensures r.Success? ==> r.value == content.bytes[index]
    {
      if !content.hasValue then Failure(InvalidOperation) else Success(content.bytes[index])
    }

    function Clone(stringType: bv8): (s: Slice)
      ensures s.HasValue() && s.content.bytes == content.bytes
      ensures s.Options() == stringType & UserDefinedMask
    {
      Slice(Allocate(content.bytes, stringType))
    }

    /** CopyTo(from, dest, offset, count): count bytes of the content, starting at from,
        into dest starting at offset; the rest of dest is kept. */
    method CopyTo(from: int, dest: array<byte>, offset: int, count: int)
      requires HasValue()
      requires 0 <= from && 0 <= count && from + count <= Size()
      requires 0 <= offset && offset + count <= dest.Length
      modifies dest
      ensures dest[..] == old(dest[..offset]) + content.bytes[from..from + count] + old(dest[offset + count..])
    {
      forall i | offset <= i < offset + count {
        dest[i] := content.bytes[from + i - offset];
      }
    }

    /** CopyTo(dest): the whole content into the start of dest. */
    method CopyAllTo(dest: array<byte>)
      requires HasValue() && Size() <= dest.Length
      modifies dest
      ensures dest[..Size()] == content.bytes
      ensures dest[Size()..] == old(dest[Size()..])
    {
      CopyTo(0, dest, 0, Size());
    }
  }

  /** The default Slice value: no content. */
  const Uninitialized: Slice := Slice(ByteString(false, [], 0))

  /** Slice.From(context, value, offset, count, type): a slice over a copy of count bytes of value. */
  function FromRange(value: seq<byte>, offset: int, count: int, stringType: bv8): (s: Slice)
    requires 0 <= offset && 0 <= count && offset + count <= |value|
    ensures s.HasValue() && s.Size() == count
    ensures s.content.flags == stringType
    ensures forall i :: 0 <= i < count ==> s.At(i) == Success(value[offset + i])
  {
    Slice(Allocate(value[offset..offset + count], stringType))
  }

  /** Slice.From(context, value, type): a slice over a copy of the whole array. */
  function From(value: seq<byte>, stringType: bv8): (s: Slice)
    ensures s.HasValue() && s.content.bytes == value
    ensures s.content.flags == stringType
  {
    FromRange(value, 0, |value|, stringType)
  }

  /** Slice.From(context, string.Empty): the content of the shared sentinels. */
  function FromEmptyString(): (s: Slice)
    ensures s.HasValue() && s.Size() == 0 && s.content.flags == Mutable
  {
    From([], Mutable)
  }

  /** The three process-wide sentinels of Slices. */
  const Empty: Slice := Slice.WithOptions(Key, FromEmptyString().content)
  const BeforeAllKeys: Slice := Slice.WithOptions(BeforeAllKeysOption, FromEmptyString().content)
  const AfterAllKeys: Slice := Slice.WithOptions(AfterAllKeysOption, FromEmptyString().content)

  /** Indexing an uninitialised slice fails, whatever the index. */
  lemma UninitializedIndexFails(index: int)
    ensures Uninitialized.At(index) == Failure(InvalidOperation)
  {
  }

  /** The options constructor records exactly the options it was given, for any options inside
      the user-defined mask, and keeps the bytes. */
  lemma WithOptionsReportsOptions(options: bv8, content: ByteString)
    requires options & !UserDefinedMask == 0
    ensures Slice.WithOptions(options, content).Options() == options
    ensures Slice.WithOptions(options, content).Size() == |content.bytes|
  {
  }

  /** Bits of the flags outside the user-defined mask never affect Options. */
  lemma OptionsIgnoreOtherBits(s: Slice, other: bv8)
    requires other & UserDefinedMask == 0
    ensures Slice(s.content.(flags := s.content.flags ^ other)).Options() == s.Options()
  {
  }

  /** new Slice(content) keeps the content, its flags and the role they carry. */
  lemma PlainConstructorKeepsContent(content: ByteString)
    ensures Slice(content).content == content
    ensures Slice(content).HasValue() == content.hasValue
    ensures Slice(content).Options() == content.flags & UserDefinedMask
  {
  }

  /** From over a whole array is From over the range 0 .. value.Length. */
  lemma FromCoversWholeArray(value: seq<byte>, stringType: bv8)
    ensures From(value, stringType) == FromRange(value, 0, |value|, stringType)
    ensures From(value, stringType).Size() == |value|
  {
  }

  /** A clone reads the same bytes as the original at every index. */
  lemma CloneReadsSameBytes(s: Slice, stringType: bv8, index: int)
    requires s.HasValue() && 0 <= index < s.Size()
    ensures s.Clone(stringType).At(index) == s.At(index)
  {
  }

  /** The sentinels are empty, initialised, and carry the roles Key, BeforeAllKeys and AfterAllKeys. */
  lemma SentinelsAreEmptyWithTheirRoles()
    ensures Empty.HasValue() && BeforeAllKeys.HasValue() && AfterAllKeys.HasValue()
    ensures Empty.Size() == 0 && BeforeAllKeys.Size() == 0 && AfterAllKeys.Size() == 0
    ensures Empty.Options() == Key
    ensures BeforeAllKeys.Options() == BeforeAllKeysOption
    ensures AfterAllKeys.Options() == AfterAllKeysOption
  {
  }
}

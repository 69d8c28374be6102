/** The value helpers of the index converters: trimming trailing zeros from a number's text,
    recognising an array-of-value object, classifying a runtime value, and the field map
    built when a converter is created. */
module Persistence {
  import opened Wrappers

  /* ---------------- TryToTrimTrailingZeros ---------------- */

  /** String.LastIndexOf: the index of the last occurrence of c in s, or -1 when there is none. */
  function LastIndexOf(s: seq<char>, c: char): (r: int)
    ensures -1 <= r < |s|
    ensures r >= 0 ==> s[r] == c
    ensures forall j :: r < j < |s| ==> s[j] != c
  {
    LastIndexBelow(s, c, |s|)
  }

  /** The index of the last occurrence of c among the first n characters of s, or -1. */
  function LastIndexBelow(s: seq<char>, c: char, n: nat): (r: int)
    requires n <= |s|
    ensures -1 <= r < n
    ensures r >= 0 ==> s[r] == c
    ensures forall j :: r < j < n ==> s[j] != c
  {
    if n == 0 then -1
    else if s[n - 1] == c then n - 1
    else LastIndexBelow(s, c, n - 1)
  }

  /** Where the run of '0' characters at the end of s begins. */
  function ZeroRunStart(s: seq<char>): (k: nat)
    ensures k <= |s|
    ensures forall j :: k <= j < |s| ==> s[j] == '0'
    ensures k > 0 ==> s[k - 1] != '0'
  {
    ZeroRunStartBelow(s, |s|)
  }

  /** Where the run of '0' characters ending at position n of s begins. */
  function ZeroRunStartBelow(s: seq<char>, n: nat): (k: nat)
    requires n <= |s|
    ensures k <= n
    ensures forall j :: k <= j < n ==> s[j] == '0'
    ensures k > 0 ==> s[k - 1] != '0'
  {
    if n == 0 || s[n - 1] != '0' then n
    else ZeroRunStartBelow(s, n - 1)
  }

  /** What trimming a number's text yields: nothing when the text has no '.' after its first
      character or does not end in '0'; otherwise the text without its trailing zeros, and
      without the last '.' as well when no fractional digit is left. */
  function TrimTrailingZeros(s: seq<char>): (r: Option<seq<char>>)
    ensures r.Some? ==> |r.value| < |s| && r.value == s[..|r.value|] && s[|s| - 1] == '0'
  {
    var dot := LastIndexOf(s, '.');
    var keep := ZeroRunStart(s);
    if dot <= 0 || keep == |s| then None
    else if keep == dot + 1 then Some(s[..dot])
    else Some(s[..keep])
  }

  /** TryToTrimTrailingZeros, scanning backwards from the last character as the source does;
      AllocateStringValue is taken to return the prefix it is given. */
  method TryToTrimTrailingZeros(inner: seq<char>) returns (dblAsString: Option<seq<char>>)
    ensures dblAsString == TrimTrailingZeros(inner)
  {
    var dotIndex := LastIndexOf(inner, '.');
    if dotIndex <= 0 {
      return None;
    }
    var index := |inner| - 1;
    var anyTrailingZeros := false;
    while true
      invariant dotIndex <= index < |inner|
      invariant forall j :: index < j < |inner| ==> inner[j] == '0'
      invariant anyTrailingZeros <==> index < |inner| - 1
      decreases index
    {
      var lastChar := inner[index];
      if lastChar != '0' {
        if lastChar == '.' {
          index := index - 1;
        }
        break;
      }
      anyTrailingZeros := true;
      index := index - 1;
    }
    if !anyTrailingZeros {
      return None;
    }
    return Some(inner[..index + 1]);
  }

  /** Trimming happens exactly when the text has a '.' after its first character and ends in '0'. */
  lemma TrimSucceedsIff(s: seq<char>)
    ensures TrimTrailingZeros(s).Some? <==>
      (exists j :: 0 < j < |s| && s[j] == '.') && s[|s| - 1] == '0'
  {
    var dot := LastIndexOf(s, '.');
    if exists j :: 0 < j < |s| && s[j] == '.' {
      var j :| 0 < j < |s| && s[j] == '.';
      assert dot >= j;
    }
  }

  /** A trimmed text is a proper prefix of the input that keeps everything before the last '.'. */
  lemma TrimIsProperPrefix(s: seq<char>, t: seq<char>)
    requires TrimTrailingZeros(s) == Some(t)
    ensures 0 < LastIndexOf(s, '.') <= |t| < |s|
    ensures t == s[..|t|]
  {
    var dot, keep := LastIndexOf(s, '.'), ZeroRunStart(s);
    TrimCut(s, t);
    CutShape(s, t, dot, keep);
  }

  /** Only '0' characters are removed, together with the last '.' itself when no fractional
      digit is left, and no '0' is left at the end of the fractional digits. */
  lemma TrimRemovesOnlyZeros(s: seq<char>, t: seq<char>)
    requires TrimTrailingZeros(s) == Some(t)
    ensures |t| < |s|
    ensures forall j :: |t| < j < |s| ==> s[j] == '0'
    ensures s[|t|] == '0' || (s[|t|] == '.' && |t| == LastIndexOf(s, '.'))
    ensures |t| > LastIndexOf(s, '.') ==> t[|t| - 1] != '0' && t[|t| - 1] != '.'
  {
    var dot, keep := LastIndexOf(s, '.'), ZeroRunStart(s);
    TrimCut(s, t);
    CutShape(s, t, dot, keep);
  }

  /** What a successful trim is made of: the last '.' and the start of the trailing '0' run. */
  lemma TrimCut(s: seq<char>, t: seq<char>)
    requires TrimTrailingZeros(s) == Some(t)
    ensures var dot, keep := LastIndexOf(s, '.'), ZeroRunStart(s);
      && 0 < dot < keep < |s|
      && t == if keep == dot + 1 then s[..dot] else s[..keep]
  {
    assert s[LastIndexOf(s, '.')] != '0';
  }

  /** The shape of a trimmed text in terms of the last dot and the start of the trailing zero run. */
  lemma CutShape(s: seq<char>, t: seq<char>, dot: int, keep: int)
    requires 0 < dot < |s| && s[dot] == '.' && forall j :: dot < j < |s| ==> s[j] != '.'
    requires 0 < keep < |s| && s[keep - 1] != '0' && forall j :: keep <= j < |s| ==> s[j] == '0'
    requires t == if keep == dot + 1 then s[..dot] else s[..keep]
    ensures dot <= |t| < |s| && t == s[..|t|]
    ensures forall j :: |t| < j < |s| ==> s[j] == '0'
    ensures s[|t|] == '0' || (s[|t|] == '.' && |t| == dot)
    ensures |t| > dot ==> t[|t| - 1] != '0' && t[|t| - 1] != '.'
  {
    assert dot < keep by {
      assert s[dot] != '0';
    }
  }

  /** The last '.' of the input never ends the result: the result ends in '.' only when the
      input has another '.' right before its last one (as in "1..0"). */
  lemma TrimNeverEndsWithLastDot(s: seq<char>, t: seq<char>)
    requires TrimTrailingZeros(s) == Some(t)
    ensures var dot := LastIndexOf(s, '.');
      t[|t| - 1] == '.' <==> |t| == dot && s[dot - 1] == '.'
  {
  }

  predicate IsDigit(c: char) {
    '0' <= c <= '9'
  }

  predicate AllDigits(d: seq<char>) {
    forall j :: 0 <= j < |d| ==> IsDigit(d[j])
  }

  function Pow10(n: nat): (r: nat)
    ensures r > 0
  {
    if n == 0 then 1 else 10 * Pow10(n - 1)
  }

  lemma {:induction false} Pow10Add(m: nat, n: nat)
    ensures Pow10(m + n) == Pow10(m) * Pow10(n)
  {
    if n > 0 {
      Pow10Add(m, n - 1);
    }
  }

  /** The number a run of decimal digits denotes. */
  function DigitsValue(d: seq<char>): nat
    requires AllDigits(d)
  {
    if d == [] then 0 else 10 * DigitsValue(d[..|d| - 1]) + (d[|d| - 1] as int - '0' as int)
  }

  /** Appending n zero digits multiplies a digit run's value by 10^n. */
  lemma {:induction false} AppendZerosValue(d: seq<char>, n: nat)
    requires AllDigits(d) && n <= |d|
    requires forall j :: |d| - n <= j < |d| ==> d[j] == '0'
    ensures DigitsValue(d) == DigitsValue(d[..|d| - n]) * Pow10(n)
  {
    if n > 0 {
      var e := d[..|d| - 1];
      assert AllDigits(e);
      assert e[..|e| - (n - 1)] == d[..|d| - n];
      AppendZerosValue(e, n - 1);
      var x := DigitsValue(d[..|d| - n]);
      assert DigitsValue(e) == x * Pow10(n - 1);
      calc {
        DigitsValue(d);
        10 * DigitsValue(e);
        10 * (x * Pow10(n - 1));
        x * (10 * Pow10(n - 1));
        x * Pow10(n);
      }
    } else {
      assert d[..|d|] == d;
    }
  }

  /** The text after the last '.' is all decimal digits: the number is not in exponent form. */
  predicate FractionIsDigits(s: seq<char>) {
    var dot := LastIndexOf(s, '.');
    dot >= 0 && forall j :: dot < j < |s| ==> IsDigit(s[j])
  }

  /** The digits of x after position dot, or none when x ends at or before dot. */
  function DigitsAfter(x: seq<char>, dot: int): seq<char>
    requires 0 <= dot
  {
    if dot < |x| then x[dot + 1..] else []
  }

  /** On a plain decimal text, trimming keeps everything before the last '.' and the value of
      the fractional digits: f / 10^|f| == g / 10^|g| for the digits f after the '.' before
      trimming and g after it. */
  lemma TrimKeepsFractionValue(s: seq<char>, t: seq<char>)
    requires FractionIsDigits(s) && TrimTrailingZeros(s) == Some(t)
    ensures var dot := LastIndexOf(s, '.');
      && 0 < dot && t[..dot] == s[..dot]
      && AllDigits(s[dot + 1..]) && AllDigits(DigitsAfter(t, dot))
      && DigitsValue(s[dot + 1..]) * Pow10(|DigitsAfter(t, dot)|)
         == DigitsValue(DigitsAfter(t, dot)) * Pow10(|s| - dot - 1)
  {
    var dot, keep := LastIndexOf(s, '.'), ZeroRunStart(s);
    CutShape(s, t, dot, keep);
    FractionValueKept(s, t, dot, keep);
  }

  lemma FractionValueKept(s: seq<char>, t: seq<char>, dot: int, keep: int)
    requires 0 < dot < keep < |s| && forall j :: dot < j < |s| ==> IsDigit(s[j])
    requires forall j :: keep <= j < |s| ==> s[j] == '0'
    requires t == if keep == dot + 1 then s[..dot] else s[..keep]
    ensures t[..dot] == s[..dot]
    ensures AllDigits(s[dot + 1..]) && AllDigits(DigitsAfter(t, dot))
    ensures DigitsValue(s[dot + 1..]) * Pow10(|DigitsAfter(t, dot)|)
         == DigitsValue(DigitsAfter(t, dot)) * Pow10(|s| - dot - 1)
  {
    var f := s[dot + 1..];
    var n := |s| - keep;
    var g := s[dot + 1..keep];
    assert DigitsAfter(t, dot) == g;
    assert f[..|f| - n] == g;
    assert AllDigits(f);
    AppendZerosValue(f, n);
    Pow10Add(|g|, n);
    MulRearrange(DigitsValue(g), Pow10(n), Pow10(|g|));
  }

  lemma MulRearrange(a: int, b: int, c: int)
    ensures a * b * c == a * (c * b)
  {
  }

  /** Trimming as it would be with the exponent form excluded: a text whose part after the last
      '.' is not all digits (such as "1.5E+20") is left alone. */
  function TrimFractionZeros(s: seq<char>): (r: Option<seq<char>>)
    ensures r.Some? ==> r == TrimTrailingZeros(s)
  {
    if !FractionIsDigits(s) then None else TrimTrailingZeros(s)
  }

  /** Every text the corrected trim changes is a plain decimal whose part before the last '.'
      and whose numeric value are kept. */
  lemma TrimFractionZerosKeepsValue(s: seq<char>, t: seq<char>)
    requires TrimFractionZeros(s) == Some(t)
    ensures FractionIsDigits(s)
    ensures var dot := LastIndexOf(s, '.');
      && 0 < dot && t[..dot] == s[..dot]
      && AllDigits(s[dot + 1..]) && AllDigits(DigitsAfter(t, dot))
      && DigitsValue(s[dot + 1..]) * Pow10(|DigitsAfter(t, dot)|)
         == DigitsValue(DigitsAfter(t, dot)) * Pow10(|s| - dot - 1)
  {
    TrimKeepsFractionValue(s, t);
  }

  /** As written, a number in exponent form loses a digit of its exponent: "1.0e10" becomes "1.0e1". */
  lemma TrimTrailingZerosCutsExponent()
    ensures TrimTrailingZeros("1.0e10") == Some("1.0e1")
    ensures !FractionIsDigits("1.0e10")
    ensures TrimFractionZeros("1.0e10") == None
  {
    var s := "1.0e10";
    assert s[1] == '.' && forall j :: 1 < j < |s| ==> s[j] != '.';
    assert LastIndexOf(s, '.') == 1;
    assert ZeroRunStart(s) == 5 by {
      assert s[4] != '0' && s[5] == '0';
    }
    assert s[..5] == "1.0e1";
    assert !IsDigit(s[3]);
  }

  /* ---------------- IsArrayOfTypeValueObject ---------------- */

  /** An object stands for an array of values when every property name starts with '$'. */
  method IsArrayOfTypeValueObject(propertyNames: seq<seq<char>>) returns (r: bool)
    ensures r <==> forall k :: 0 <= k < |propertyNames| ==>
      |propertyNames[k]| > 0 && propertyNames[k][0] == '$'
  {
    for i := 0 to |propertyNames|
      invariant forall k :: 0 <= k < i ==> |propertyNames[k]| > 0 && propertyNames[k][0] == '$'
    {
      var propertyName := propertyNames[i];
      if |propertyName| == 0 || propertyName[0] != '$' {
        return false;
      }
    }
    return true;
  }

  /* ---------------- The field map built by the constructor ---------------- */

  /** An index field; its indexing options are carried but not interpreted here. */
  datatype IndexField = IndexField(name: seq<char>, options: seq<char>)

  datatype IndexDefinition = IndexDefinition(indexFields: seq<IndexField>)

  datatype Traverser = Default | FlatMapReduceResults

  datatype Converter = Converter(index: IndexDefinition, traverser: Traverser, fields: map<seq<char>, IndexField>)

  datatype ConverterError = ArgumentNull

  /** The dictionary after assigning dictionary[field.Name] = field for each field in order. */
  function FieldMap(fields: seq<IndexField>): (m: map<seq<char>, IndexField>)
    ensures m.Keys == set k | 0 <= k < |fields| :: fields[k].name
    ensures forall name :: name in m ==> m[name].name == name && m[name] in fields
  {
    if fields == [] then map[]
    else
      var last := fields[|fields| - 1];
      var m := FieldMap(fields[..|fields| - 1]);
      assert forall k :: 0 <= k < |fields| - 1 ==> fields[..|fields| - 1][k] == fields[k];
      m[last.name := last]
  }

  /** For fields sharing a name, the last one in order is the one kept. */
  lemma {:induction false} FieldMapLastWins(fields: seq<IndexField>, i: int)
    requires 0 <= i < |fields|
    requires forall j :: i < j < |fields| ==> fields[j].name != fields[i].name
    ensures FieldMap(fields)[fields[i].name] == fields[i]
  {
    if i < |fields| - 1 {
      var prefix := fields[..|fields| - 1];
      assert forall j :: i < j < |prefix| ==> prefix[j] == fields[j];
      FieldMapLastWins(prefix, i);
    }
  }

  /** new ConverterBase(index, storeValue): fails on a null index; otherwise picks the traverser
      and indexes the definition's fields by name. */
  method NewConverter(index: Option<IndexDefinition>, storeValue: bool) returns (r: Result<Converter, ConverterError>)
    ensures index.None? <==> r == Failure(ArgumentNull)
    ensures index.Some? ==>
      && r.Success? && r.value.index == index.value
      && r.value.traverser == (if storeValue then FlatMapReduceResults else Default)
      && r.value.fields == FieldMap(index.value.indexFields)
  {
    if index.None? {
      return Failure(ArgumentNull);
    }
    var traverser := if storeValue then FlatMapReduceResults else Default;
    var fields := index.value.indexFields;
    var dictionary: map<seq<char>, IndexField> := map[];
    for i := 0 to |fields|
      invariant dictionary == FieldMap(fields[..i])
    {
      assert fields[..i + 1][..i] == fields[..i];
      dictionary := dictionary[fields[i].name := fields[i]];
    }
    assert fields[..|fields|] == fields;
    return Success(Converter(index.value, traverser, dictionary));
  }

  /* ---------------- GetValueType ---------------- */

  /** The classes GetValueType sorts a value into. */
  datatype ValueType =
    | Null | DynamicNull | EmptyString | String | LazyString | LazyCompressedString | Enumerable
    | Double | Convertible | Numeric | BoostedValue | DynamicJsonObject | BlittableJsonObject
    | Boolean | DateTime | DateTimeOffset | TimeSpan | Enum | Lucene | ConvertToJson | Stream

  /** The runtime type of a value, as far as the tests of GetValueType can tell types apart. */
  datatype Kind =
    | NullReference
    | DynamicNullObject
    | LazyStringValue(size: int)
    | LazyCompressedStringValue(uncompressedSize: int)
    | SystemString(length: nat)
    | SystemEnum
    | SystemBoolean
    | SystemDateTime
    | SystemDateTimeOffset
    | SystemTimeSpan
    | BoostedValueObject
    | DynamicBlittableJson
    | DynamicDictionary
    | LazyNumberValue
    | SystemDouble
    | SystemDecimal
    | SystemSingle
    | AbstractField
    | SystemChar
    | BlittableJsonReaderObject
    | SystemInt64
    | SystemInt32
    | SystemByte
    | SystemInt16
    | SystemUInt16
    | SystemUInt32
    | SystemSByte
    | SystemUInt64
    | StreamObject
    | OtherObject

  /** A value: its type, and whether that type implements IEnumerable and IConvertible. */
  datatype Value = Value(kind: Kind, isEnumerable: bool, isConvertible: bool)

  /** The interfaces of the base-library types: string is IEnumerable and IConvertible; enums,
      bool, DateTime, char and the numeric types are IConvertible only; DateTimeOffset and
      TimeSpan are neither; null implements nothing. Other types may implement either. */
  predicate WellTyped(v: Value) {
    match v.kind
    case NullReference => !v.isEnumerable && !v.isConvertible
    case SystemString(_) => v.isEnumerable && v.isConvertible
    case SystemDateTimeOffset => !v.isEnumerable && !v.isConvertible
    case SystemTimeSpan => !v.isEnumerable && !v.isConvertible
    case _ => IsBasePrimitive(v.kind) ==> !v.isEnumerable && v.isConvertible
  }

  /** Enums, bool, DateTime, char and the numeric value types. */
  predicate IsBasePrimitive(k: Kind) {
    k.SystemEnum? || k.SystemBoolean? || k.SystemDateTime? || k.SystemChar? || k.SystemDouble?
    || k.SystemDecimal? || k.SystemSingle? || k.SystemInt64? || k.SystemInt32? || k.SystemByte?
    || k.SystemInt16? || k.SystemUInt16? || k.SystemUInt32? || k.SystemSByte? || k.SystemUInt64?
  }

  /** IsNumber: the value is of one of the built-in numeric types. */
  predicate IsNumber(v: Value): (b: bool)
    ensures b <==> BaseTypeClass(v.kind) == Some(Double) || BaseTypeClass(v.kind) == Some(Convertible)
  {
    v.kind.SystemInt64? || v.kind.SystemDecimal? || v.kind.SystemInt32? || v.kind.SystemByte?
    || v.kind.SystemInt16? || v.kind.SystemUInt16? || v.kind.SystemUInt32? || v.kind.SystemSByte?
    || v.kind.SystemUInt64? || v.kind.SystemSingle? || v.kind.SystemDouble?
  }

  /** GetValueType: the tests in source order, the first that holds deciding. */
  function GetValueType(v: Value): (r: ValueType)
    ensures r == Null <==> v.kind.NullReference?
    ensures r == Numeric ==> IsNumber(v) && !v.isEnumerable && !v.isConvertible
  {
    if v.kind.NullReference? then Null
    else if v.kind.DynamicNullObject? then DynamicNull
    else if v.kind.LazyStringValue? then (if v.kind.size == 0 then EmptyString else LazyString)
    else if v.kind.LazyCompressedStringValue? then
      (if v.kind.uncompressedSize == 0 then EmptyString else LazyCompressedString)
    else if v.kind.SystemString? then (if v.kind.length == 0 then EmptyString else String)
    else if v.kind.SystemEnum? then Enum
    else if v.kind.SystemBoolean? then Boolean
    else if v.kind.SystemDateTime? then DateTime
    else if v.kind.SystemDateTimeOffset? then DateTimeOffset
    else if v.kind.SystemTimeSpan? then TimeSpan
    else if v.kind.BoostedValueObject? then BoostedValue
    else if v.kind.DynamicBlittableJson? then DynamicJsonObject
    else if v.kind.DynamicDictionary? then ConvertToJson
    else if v.isEnumerable then Enumerable
    else if v.kind.LazyNumberValue? || v.kind.SystemDouble? || v.kind.SystemDecimal? || v.kind.SystemSingle? then Double
    else if v.kind.AbstractField? then Lucene
    else if v.kind.SystemChar? then String
    else if v.isConvertible then Convertible
    else if v.kind.BlittableJsonReaderObject? then BlittableJsonObject
    else if IsNumber(v) then Numeric
    else if v.kind.StreamObject? then Stream
    else ConvertToJson
  }

  /** The class a well-typed value of a base-library type gets, told from its type alone. */
  function BaseTypeClass(k: Kind): Option<ValueType> {
    match k
    case NullReference => Some(Null)
    case SystemString(length) => Some(if length == 0 then EmptyString else String)
    case SystemEnum => Some(Enum)
    case SystemBoolean => Some(Boolean)
    case SystemDateTime => Some(DateTime)
    case SystemDateTimeOffset => Some(DateTimeOffset)
    case SystemTimeSpan => Some(TimeSpan)
    case SystemChar => Some(String)
    case SystemDouble => Some(Double)
    case SystemDecimal => Some(Double)
    case SystemSingle => Some(Double)
    case SystemInt64 => Some(Convertible)
    case SystemInt32 => Some(Convertible)
    case SystemByte => Some(Convertible)
    case SystemInt16 => Some(Convertible)
    case SystemUInt16 => Some(Convertible)
    case SystemUInt32 => Some(Convertible)
    case SystemSByte => Some(Convertible)
    case SystemUInt64 => Some(Convertible)
    case _ => None
  }

  /** For every well-typed value of a base-library type, the test order yields the class its
      type alone determines: a string goes to String rather than Enumerable, a char to String
      rather than Convertible, a double to Double and an integer to Convertible. */
  lemma GetValueTypeOfBaseTypes(v: Value)
    requires WellTyped(v) && BaseTypeClass(v.kind).Some?
    ensures GetValueType(v) == BaseTypeClass(v.kind).value
  {
  }

  /** Numeric is never reached by a well-typed value: every type IsNumber accepts is
      IConvertible, and the IConvertible test comes first. */
  lemma NumericUnreachable(v: Value)
    requires WellTyped(v)
    ensures GetValueType(v) != Numeric
  {
  }

  /** null is Null; an empty string of any of the three string kinds is EmptyString, whatever
      interfaces it implements. */
  lemma NullAndEmptyStrings(v: Value)
    ensures v.kind.NullReference? ==> GetValueType(v) == Null
    ensures v.kind.LazyStringValue? && v.kind.size == 0 ==> GetValueType(v) == EmptyString
    ensures v.kind.LazyCompressedStringValue? && v.kind.uncompressedSize == 0 ==> GetValueType(v) == EmptyString
    ensures v.kind.SystemString? && v.kind.length == 0 ==> GetValueType(v) == EmptyString
  {
  }

  /** A value of another type goes to Enumerable if it is IEnumerable, otherwise to Convertible
      if it is IConvertible, otherwise to ConvertToJson. */
  lemma OtherObjectsByInterface(v: Value)
    requires v.kind.OtherObject?
    ensures GetValueType(v) ==
      if v.isEnumerable then Enumerable else if v.isConvertible then Convertible else ConvertToJson
  {
  }

  /** A number read lazily from JSON is Double unless its type is IEnumerable. */
  lemma LazyNumbersAreDouble(v: Value)
    requires v.kind.LazyNumberValue? && !v.isEnumerable
    ensures GetValueType(v) == Double
  {
  }
}

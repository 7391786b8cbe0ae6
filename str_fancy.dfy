/** The fluent wrapper of src/StrFancy.js. An instance holds a text and its
    length, both fixed when it is built; every method builds a new instance
    around the result of the matching string function, so an instance is an
    immutable value and is modelled as a datatype. */
module Fancy {
  import opened JsString
  import Strings

  /** The arguments the methods hand to the constructor: a text, or the
      boolean a predicate method returns. */
  datatype JsValue = Str(text: Text) | Bool(flag: bool)

  /** `String(true)` and `String(false)`. */
  const TrueText: Text := [0x74, 0x72, 0x75, 0x65]
  const FalseText: Text := [0x66, 0x61, 0x6C, 0x73, 0x65]

  /** `String(x)` for the values the methods pass. */
  function ToText(x: JsValue): Text
  {
    match x
    case Str(text) => text
    case Bool(flag) => if flag then TrueText else FalseText
  }

  /** An object is truthy in JavaScript, whatever it holds. */
  predicate Truthy(instance: StrFancy)
  {
    true
  }

  datatype StrFancy = Instance(value: Text, length: nat)
  {
    /** The field invariant the constructor establishes. */
    predicate Valid()
    {
      length == |value|
    }

    /** The constructor: `value` is the argument coerced to a string and
        `length` its number of code units. */
    static function New(x: JsValue): (r: StrFancy)
      ensures r.Valid()
      ensures x.Str? ==> r.value == x.text
      ensures x.Bool? ==> (r.value == TrueText <==> x.flag) && (r.value == FalseText <==> !x.flag)
    {
      var text := ToText(x);
      Instance(text, |text|)
    }

    /** `of`: a new instance around the given text. */
    static function Of(value: Text): (r: StrFancy)
      ensures r.Valid() && r.value == value && r.length == |value|
    {
      New(Str(value))
    }

    function After(search: Text): (r: StrFancy)
      ensures r.Valid() && r.value == Strings.After(value, search)
    {
      New(Str(Strings.After(value, search)))
    }

    function AfterLast(search: Text): (r: StrFancy)
      ensures r.Valid() && r.value == Strings.AfterLast(value, search)
    {
      New(Str(Strings.AfterLast(value, search)))
    }

    function Append(values: seq<Text>): (r: StrFancy)
      ensures r.Valid() && r.value == Strings.Append(value, values)
    {
      New(Str(Strings.Append(value, values)))
    }

    function Before(search: Text): (r: StrFancy)
      requires IsLiteralPattern(search)
      ensures r.Valid() && r.value == Strings.Before(value, search)
    {
      New(Str(Strings.Before(value, search)))
    }

    function BeforeLast(search: Text): (r: StrFancy)
      ensures r.Valid() && r.value == Strings.BeforeLast(value, search)
    {
      New(Str(Strings.BeforeLast(value, search)))
    }

    function Between(from: Text, to: Text): (r: StrFancy)
      ensures r.Valid() && r.value == Strings.Between(value, from, to)
    {
      New(Str(Strings.Between(value, from, to)))
    }

    function Camel(): (r: StrFancy)
      ensures r.Valid() && r.value == Strings.Camel(value)
    {
      New(Str(Strings.Camel(value)))
    }

    /** contains: "true" exactly when some non-empty needle occurs. */
    method Contains(needles: Strings.Needles) returns (r: StrFancy)
      ensures r.Valid()
      ensures r.value == TrueText <==> Strings.AnyFound(value, Strings.ArrayWrap(needles))
      ensures r.value == FalseText <==> !Strings.AnyFound(value, Strings.ArrayWrap(needles))
    {
      var found := Strings.Contains(value, needles);
      r := New(Bool(found));
    }

    /** containsAll: "true" exactly when every needle is non-empty and
        occurs. */
    method ContainsAll(needles: seq<Text>) returns (r: StrFancy)
      ensures r.Valid()
      ensures r.value == TrueText <==> Strings.AllFound(value, needles)
      ensures r.value == FalseText <==> !Strings.AllFound(value, needles)
    {
      var all := Strings.ContainsAll(value, needles);
      r := New(Bool(all));
    }

    function Dirname(level: nat := 1): (r: StrFancy)
      ensures r.Valid() && r.value == Strings.Dirname(value, level)
    {
      New(Str(Strings.Dirname(value, level)))
    }

    /** endsWith: "true" exactly when the (cut) text ends with a needle. */
    method EndsWith(needles: Strings.Needles, length: Strings.Option<nat>) returns (r: StrFancy)
      ensures r.Valid()
      ensures r.value == TrueText <==> Strings.EndsWithAny(value, Strings.ArrayWrap(needles), length)
      ensures r.value == FalseText <==> !Strings.EndsWithAny(value, Strings.ArrayWrap(needles), length)
    {
      var found := Strings.EndsWith(value, needles, length);
      r := New(Bool(found));
    }

    /** exactly: "true" exactly when the text is the given one. */
    function Exactly(other: Text): (r: StrFancy)
      ensures r.Valid()
      ensures r.value == TrueText <==> value == other
      ensures r.value == FalseText <==> value != other
    {
      New(Bool(value == other))
    }

    function Finish(cap: Text): (r: StrFancy)
      requires IsLiteralUnicodePattern(cap)
      ensures r.Valid() && r.value == Strings.Finish(value, cap)
    {
      New(Str(Strings.Finish(value, cap)))
    }

    /** is: "true" exactly when the pattern matches the text. */
    method Is(pattern: Text) returns (r: StrFancy)
      requires Strings.IsWildcardPattern(pattern)
      ensures r.Valid()
      ensures r.value == TrueText <==> Strings.Matches(pattern, value)
      ensures r.value == FalseText <==> !Strings.Matches(pattern, value)
    {
      var matched := Strings.Is(pattern, value);
      r := New(Bool(matched));
    }

    /** isAscii: "true" exactly when every unit is in the admitted class. */
    function IsAscii(): (r: StrFancy)
      ensures r.Valid()
      ensures r.value == TrueText <==> forall i :: 0 <= i < |value| ==> Strings.IsAsciiUnit(value[i])
      ensures r.value == FalseText <==> !forall i :: 0 <= i < |value| ==> Strings.IsAsciiUnit(value[i])
    {
      New(Bool(Strings.IsAscii(value)))
    }

    /** isEmpty: "true" exactly when the text is empty. */
    function IsEmpty(): (r: StrFancy)
      ensures r.Valid()
      ensures r.value == TrueText <==> value == []
      ensures r.value == FalseText <==> value != []
    {
      New(Bool(value == []))
    }

    /** isNotEmpty, as written: the negation of the instance isEmpty
        returns, which as an object is always truthy. */
    function IsNotEmpty(): (r: StrFancy)
      ensures r.Valid() && r.value == FalseText
    {
      New(Bool(!Truthy(IsEmpty())))
    }

    /** What isNotEmpty is documented to do: "true" exactly when the text is
        not empty. */
    function IsNotEmptyIntended(): (r: StrFancy)
      ensures r.Valid()
      ensures r.value == TrueText <==> value != []
      ensures r.value == TrueText <==> IsEmpty().value == FalseText
    {
      New(Bool(value != []))
    }

    function Kebab(delimiter: Text := [0x5F]): (r: StrFancy)
      ensures r.Valid() && r.value == Strings.Kebab(value, delimiter)
    {
      New(Str(Strings.Kebab(value, delimiter)))
    }

    function Limit(limit: nat := 100, end: Text := [0x2E, 0x2E, 0x2E]): (r: StrFancy)
      ensures r.Valid() && r.value == Strings.Limit(value, limit, end)
    {
      New(Str(Strings.Limit(value, limit, end)))
    }

    function Lower(): (r: StrFancy)
      ensures r.Valid() && r.value == Strings.Lower(value)
    {
      New(Str(Strings.Lower(value)))
    }

    function Ltrim(characters: Text := [0x20]): (r: StrFancy)
      requires characters != [] && IsLiteralPattern(characters)
      ensures r.Valid() && r.value == Strings.Ltrim(value, characters)
    {
      New(Str(Strings.Ltrim(value, characters)))
    }

    function PadBoth(length: nat, pad: Text := [0x20]): (r: StrFancy)
      ensures r.Valid() && r.value == Strings.PadBoth(value, length, pad)
    {
      New(Str(Strings.PadBoth(value, length, pad)))
    }

    function PadLeft(length: nat, pad: Text := [0x20]): (r: StrFancy)
      ensures r.Valid() && r.value == Strings.PadLeft(value, length, pad)
    {
      New(Str(Strings.PadLeft(value, length, pad)))
    }

    function PadRight(length: nat, pad: Text := [0x20]): (r: StrFancy)
      ensures r.Valid() && r.value == Strings.PadRight(value, length, pad)
    {
      New(Str(Strings.PadRight(value, length, pad)))
    }

    function Prepend(values: seq<Text>): (r: StrFancy)
      ensures r.Valid() && r.value == Strings.Prepend(value, values)
    {
      New(Str(Strings.Prepend(value, values)))
    }

    function Studly(): (r: StrFancy)
      ensures r.Valid() && r.value == Strings.Studly(value)
    {
      New(Str(Strings.Studly(value)))
    }
  }

  /** Chaining after and beforeLast, as the example script does, gives the
      text between the two markers; for non-empty markers that is between. */
  lemma ChainIsBetween(s: Text, from: Text, to: Text)
    ensures StrFancy.Of(s).After(from).BeforeLast(to).value == Strings.BeforeLast(Strings.After(s, from), to)
    ensures from != [] && to != [] ==> StrFancy.Of(s).After(from).BeforeLast(to).value == Strings.Between(s, from, to)
  {
  }

  /** isNotEmpty answers "false" even for a text that is not empty, where
      the intended method answers "true". */
  lemma IsNotEmptyIgnoresValue()
    ensures StrFancy.Of([0x61]).IsNotEmpty().value == FalseText
    ensures StrFancy.Of([0x61]).IsNotEmptyIntended().value == TrueText
  {
  }
}

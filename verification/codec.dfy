/** The property document of a node row: the encoder that turns a node's
    properties into the stored list of (name, type tag, multi-valued flag,
    values), with binary payloads set apart, and the decoder that turns a
    stored list back into the flat field map the client hands out. XML
    markup and escaping are abstracted away: a document is the list of its
    property elements. */
module Codec {
  import opened Wrappers
  import opened Text
  import opened OrderedMaps

  /** The PHPCR property types. */
  datatype PropType =
    | Undefined | String | Binary | Long | Double | Date | Boolean
    | Name | Path | Reference | WeakReference | Uri | Decimal

  /** The type names the PHPCR library writes into the `sv:type` attribute. */
  function TypeName(t: PropType): string
  {
    match t
    case Undefined => "undefined"
    case String => "String"
    case Binary => "Binary"
    case Long => "Long"
    case Double => "Double"
    case Date => "Date"
    case Boolean => "Boolean"
    case Name => "Name"
    case Path => "Path"
    case Reference => "Reference"
    case WeakReference => "WeakReference"
    case Uri => "URI"
    case Decimal => "Decimal"
  }

  /** The PHPCR library's reading of a type name: exact, case-sensitive
      match, anything else is unknown. */
  function TypeFromName(n: string): (r: Option<PropType>)
    ensures r.Some? ==> TypeName(r.value) == n
  {
    if n == "undefined" then Some(Undefined)
    else if n == "String" then Some(String)
    else if n == "Binary" then Some(Binary)
    else if n == "Long" then Some(Long)
    else if n == "Double" then Some(Double)
    else if n == "Date" then Some(Date)
    else if n == "Boolean" then Some(Boolean)
    else if n == "Name" then Some(Name)
    else if n == "Path" then Some(Path)
    else if n == "Reference" then Some(Reference)
    else if n == "WeakReference" then Some(WeakReference)
    else if n == "URI" then Some(Uri)
    else if n == "Decimal" then Some(Decimal)
    else None
  }

  /** Types whose values are stored and read back as plain strings. */
  predicate IsTextType(t: PropType)
  {
    t in {String, Name, Path, Reference, WeakReference, Uri, Decimal}
  }

  /** A property value as the PHPCR property object hands it out for its
      type. A date is either its formatted text or a value that is not a
      date object; a binary is its stream (or none) and its known length. */
  datatype Value =
    | Text(s: string)
    | Flag(b: bool)
    | Int(n: int)
    | Float(text: string)
    | Stamp(date: Option<string>)
    | Blob(stream: Option<string>, length: nat)

  /** A property of the node being saved. `dirty` is "new or modified". */
  datatype Property = Property(name: string, ptype: PropType, multiple: bool, values: seq<Value>, dirty: bool)

  predicate ValueFits(t: PropType, v: Value)
  {
    match t
    case Undefined => true
    case Boolean => v.Flag?
    case Long => v.Int? && IntMin <= v.n <= IntMax
    case Double => v.Float?
    case Date => v.Stamp?
    case Binary => v.Blob?
    case _ => v.Text?
  }

  /** The property object's own invariant: values match the type and a
      single-valued property has exactly one value. */
  predicate WellTyped(p: Property)
  {
    (forall i :: 0 <= i < |p.values| ==> ValueFits(p.ptype, p.values[i]))
    && (!p.multiple ==> |p.values| == 1)
  }

  /** One stored property element. */
  datatype XmlProperty = XmlProperty(name: string, typeName: string, multi: bool, values: seq<string>)

  type Document = seq<XmlProperty>

  /** The encoder's output: the document and the binary payloads per
      property name, in value order. */
  datatype Encoded = Encoded(doc: Document, binaryData: OMap<string, seq<string>>)

  /* ---------------------------------------------------------------------
     Encoding
     --------------------------------------------------------------------- */

  /** The bytes a binary value contributes: its stream, or "" for none. */
  function Payload(v: Value): string
  {
    if v.Blob? && v.stream.Some? then v.stream.value else ""
  }

  function Payloads(vs: seq<Value>): (r: seq<string>)
    ensures |r| == |vs|
    ensures forall i :: 0 <= i < |vs| ==> r[i] == Payload(vs[i])
  {
    if |vs| == 0 then [] else [Payload(vs[0])] + Payloads(vs[1..])
  }

  function LengthText(n: int): string { IntToString(n) }

  /** Text of a non-binary, non-date value. */
  function ScalarText(v: Value): string
  {
    match v
    case Text(s) => s
    case Flag(b) => if b then "1" else "0"
    case Int(n) => IntToString(n)
    case Float(t) => t
    case Stamp(d) => if d.Some? then d.value else ""
    case Blob(_, len) => LengthText(len)
  }

  function MapText(vs: seq<Value>): (r: seq<string>)
    ensures |r| == |vs|
    ensures forall i :: 0 <= i < |vs| ==> r[i] == ScalarText(vs[i])
  {
    if |vs| == 0 then [] else [ScalarText(vs[0])] + MapText(vs[1..])
  }

  function PayloadLengths(vs: seq<Value>): (r: seq<string>)
    ensures |r| == |vs|
    ensures forall i :: 0 <= i < |vs| ==> r[i] == LengthText(|Payload(vs[i])|)
  {
    if |vs| == 0 then [] else [LengthText(|Payload(vs[0])|)] + PayloadLengths(vs[1..])
  }

  /** The stored value texts of a property. A date that is not a date
      object is replaced by `now`; a multi-valued date property hands out a
      list, which is never a date object, so it is stored as the single
      value `now`. */
  function StoredValues(p: Property, now: string): seq<string>
    requires p.ptype != Undefined
  {
    match p.ptype
    case Binary =>
      if p.dirty then PayloadLengths(p.values) else MapText(p.values)
    case Date =>
      if !p.multiple && |p.values| > 0 && p.values[0].Stamp? && p.values[0].date.Some?
      then [p.values[0].date.value] else [now]
    case _ => MapText(p.values)
  }

  /** The element written for one property, or the error for a type the
      encoder does not know. */
  function EncodeProperty(p: Property, now: string): (r: Result<XmlProperty>)
    ensures r.Err? <==> p.ptype == Undefined
    ensures r.Err? ==> r.error == RepositoryError
    ensures r.Ok? ==> r.value.name == p.name && r.value.typeName == TypeName(p.ptype) && r.value.multi == p.multiple
  {
    if p.ptype == Undefined then Err(RepositoryError)
    else Ok(XmlProperty(p.name, TypeName(p.ptype), p.multiple, StoredValues(p, now)))
  }

  /** Whether the property contributes binary payloads. */
  predicate CarriesPayload(p: Property) { p.ptype == Binary && p.dirty }

  function AppendPayloads(data: OMap<string, seq<string>>, name: string, ps: seq<string>): OMap<string, seq<string>>
  {
    var prior := Get(data, name);
    Put(data, name, (if prior.Some? then prior.value else []) + ps)
  }

  /** propsToXML over a list of properties, in order. */
  function EncodeAll(ps: seq<Property>, now: string): (r: Result<Encoded>)
    ensures r.Ok? ==> |r.value.doc| == |ps|
    decreases |ps|
  {
    if |ps| == 0 then Ok(Encoded([], []))
    else
      var e :- EncodeAll(ps[..|ps| - 1], now);
      var p := ps[|ps| - 1];
      var x :- EncodeProperty(p, now);
      var data := if CarriesPayload(p) then AppendPayloads(e.binaryData, p.name, Payloads(p.values)) else e.binaryData;
      Ok(Encoded(e.doc + [x], data))
  }

  /* ---------------------------------------------------------------------
     Decoding
     --------------------------------------------------------------------- */

  /** A decoded value: the string, bool or int cast of the stored text. */
  datatype Decoded = Str(s: string) | Bool(b: bool) | Num(n: int) | Real(text: string)

  /** A field of the decoded map: one value, a list, the type tag stored
      under ':' + name, or null (a single-valued element without values). */
  datatype Entry = Scalar(v: Decoded) | List(vs: seq<Decoded>) | Tag(t: PropType) | Null

  type Fields = OMap<string, Entry>

  /** The cast the decoder applies to one stored text. */
  function ReadValue(t: PropType, s: string): Decoded
    requires t != Undefined
  {
    match t
    case Boolean => Bool(PhpTruthy(s))
    case Long => Num(ParseInt(s))
    case Binary => Num(ParseInt(s))
    case Double => Real(s)
    case _ => Str(s)
  }

  function ReadValues(t: PropType, vs: seq<string>): (r: seq<Decoded>)
    requires t != Undefined
    ensures |r| == |vs|
    ensures forall i :: 0 <= i < |vs| ==> r[i] == ReadValue(t, vs[i])
  {
    if |vs| == 0 then [] else [ReadValue(t, vs[0])] + ReadValues(t, vs[1..])
  }

  /** The values of one element; the undefined type has no cast, so it
      fails as soon as there is a value to cast. */
  function DecodeValues(t: PropType, vs: seq<string>): (r: Result<seq<Decoded>>)
    ensures r.Err? <==> t == Undefined && |vs| > 0
    ensures r.Err? ==> r.error == InvalidArgument
  {
    if t == Undefined then (if |vs| == 0 then Ok([]) else Err(InvalidArgument))
    else Ok(ReadValues(t, vs))
  }

  /** The field holding a property's values: a list exactly when the
      element says multi-valued, whatever the number of values. */
  function Shape(multi: bool, vs: seq<Decoded>): Entry
  {
    if multi then List(vs) else if |vs| > 0 then Scalar(vs[0]) else Null
  }

  function TypeKey(name: string): string { ":" + name }

  predicate Keeps(filter: Option<set<string>>, name: string)
  {
    filter.None? || name in filter.value
  }

  /** The fields one element contributes, in assignment order. */
  function DecodeProperty(x: XmlProperty, filter: Option<set<string>>): Result<Fields>
  {
    var t := TypeFromName(x.typeName);
    if t.None? then Err(InvalidArgument)
    else
      var vs :- DecodeValues(t.value, x.values);
      if !Keeps(filter, x.name) then Ok([])
      else if t.value == Binary then Ok([(TypeKey(x.name), Shape(x.multi, vs))])
      else Ok([(x.name, Shape(x.multi, vs)), (TypeKey(x.name), Tag(t.value))])
  }

  /** xmlToProps: the elements are decoded in order and their fields
      assigned into one map; the first failing element fails the whole. */
  function Decode(doc: Document, filter: Option<set<string>>): Result<Fields>
    decreases |doc|
  {
    if |doc| == 0 then Ok([])
    else
      var m :- Decode(doc[..|doc| - 1], filter);
      var f :- DecodeProperty(doc[|doc| - 1], filter);
      Ok(PutAll(m, f))
  }

  /* ---------------------------------------------------------------------
     Reference reading of a saved property
     --------------------------------------------------------------------- */

  /** What reading back a stored value yields. */
  function Expected(v: Value, now: string): Decoded
  {
    match v
    case Text(s) => Str(s)
    case Flag(b) => Bool(b)
    case Int(n) => Num(n)
    case Float(t) => Real(t)
    case Stamp(d) => Str(if d.Some? then d.value else now)
    case Blob(_, len) => Num(len)
  }

  function ExpectedAll(vs: seq<Value>, now: string): (r: seq<Decoded>)
    ensures |r| == |vs|
    ensures forall i :: 0 <= i < |vs| ==> r[i] == Expected(vs[i], now)
  {
    if |vs| == 0 then [] else [Expected(vs[0], now)] + ExpectedAll(vs[1..], now)
  }

  /** The values a saved property reads back as. */
  function ReadBack(p: Property, now: string): seq<Decoded>
  {
    match p.ptype
    case Binary =>
      if p.dirty then NumLengths(Payloads(p.values)) else ExpectedAll(p.values, now)
    case Date =>
      if p.multiple then [Str(now)] else ExpectedAll(p.values, now)
    case _ => ExpectedAll(p.values, now)
  }

  function NumLengths(ps: seq<string>): (r: seq<Decoded>)
    ensures |r| == |ps|
    ensures forall i :: 0 <= i < |ps| ==> r[i] == Num(|ps[i]|)
  {
    if |ps| == 0 then [] else [Num(|ps[0]|)] + NumLengths(ps[1..])
  }

  /** The fields a saved property reads back as. */
  function ExpectedFields(p: Property, now: string): Fields
  {
    var e := Shape(p.multiple, ReadBack(p, now));
    if p.ptype == Binary then [(TypeKey(p.name), e)]
    else [(p.name, e), (TypeKey(p.name), Tag(p.ptype))]
  }

  /* ---------------------------------------------------------------------
     Lemmas
     --------------------------------------------------------------------- */

  /** Type names and type tags are in one-to-one correspondence. */
  lemma TypeNameRoundTrip(t: PropType, n: string)
    ensures TypeFromName(n) == Some(t) <==> TypeName(t) == n
  {
    match t
    case Undefined =>
    case String =>
    case Binary =>
    case Long =>
    case Double =>
    case Date =>
    case Boolean =>
    case Name =>
    case Path =>
    case Reference =>
    case WeakReference =>
    case Uri =>
    case Decimal =>
  }

  /** A stored long reads back as itself (within the 64-bit range). */
  lemma LongValueRoundTrip(n: int)
    requires IntMin <= n <= IntMax
    ensures ReadValue(Long, ScalarText(Int(n))) == Num(n)
  {
    IntRoundTrip(n);
  }

  /** Booleans are stored as "1"/"0" and read back as the same bool. */
  lemma BooleanValueRoundTrip(b: bool)
    ensures ScalarText(Flag(b)) == (if b then "1" else "0")
    ensures ReadValue(Boolean, ScalarText(Flag(b))) == Bool(b)
  {
  }

  lemma LengthRoundTrip(n: nat)
    requires n <= IntMax
    ensures ReadValue(Binary, LengthText(n)) == Num(n)
  {
    IntRoundTrip(n);
  }

  /** Every stored value text reads back as the expected value. */
  lemma {:induction false} StoredValuesReadBack(p: Property, now: string)
    requires WellTyped(p) && p.ptype != Undefined
    requires p.ptype == Binary ==> forall i :: 0 <= i < |p.values| ==> p.values[i].length <= IntMax && |Payload(p.values[i])| <= IntMax
    ensures DecodeValues(p.ptype, StoredValues(p, now)) == Ok(ReadBack(p, now))
  {
    var sv := StoredValues(p, now);
    var rb := ReadBack(p, now);
    assert |sv| == |rb|;
    forall i | 0 <= i < |sv| ensures ReadValue(p.ptype, sv[i]) == rb[i] {
      match p.ptype
      case Binary =>
        if p.dirty {
          LengthRoundTrip(|Payload(p.values[i])|);
        } else {
          LengthRoundTrip(p.values[i].length);
        }
      case Long =>
        LongValueRoundTrip(p.values[i].n);
      case Boolean =>
        BooleanValueRoundTrip(p.values[i].b);
      case Date =>
      case Double =>
      case String =>
      case Name =>
      case Path =>
      case Reference =>
      case WeakReference =>
      case Uri =>
      case Decimal =>
    }
    assert ReadValues(p.ptype, sv) == rb;
  }

  /** Round trip of one saved property: its fields read back with the same
      type tag and the expected values; a binary property yields only the
      ':' + name field, holding the length(s). */
  lemma PropertyRoundTrip(p: Property, now: string)
    requires WellTyped(p) && p.ptype != Undefined
    requires p.ptype == Binary ==> forall i :: 0 <= i < |p.values| ==> p.values[i].length <= IntMax && |Payload(p.values[i])| <= IntMax
    ensures EncodeProperty(p, now).Ok?
    ensures DecodeProperty(EncodeProperty(p, now).value, None) == Ok(ExpectedFields(p, now))
  {
    StoredValuesReadBack(p, now);
    TypeNameRoundTrip(p.ptype, TypeName(p.ptype));
  }

  function SameValue(v: Value): Decoded
  {
    match v
    case Text(s) => Str(s)
    case Int(n) => Num(n)
    case Flag(b) => Bool(b)
    case _ => Str("")
  }

  /** For the string-like types and long, the values read back are exactly
      the values saved. */
  lemma TextAndLongRoundTrip(p: Property, now: string)
    requires WellTyped(p) && (IsTextType(p.ptype) || p.ptype == Long || p.ptype == Boolean)
    ensures ReadBack(p, now) == ExpectedAll(p.values, now)
    ensures forall i :: 0 <= i < |p.values| ==> ReadBack(p, now)[i] == SameValue(p.values[i])
  {
    assert forall i :: 0 <= i < |p.values| ==> ValueFits(p.ptype, p.values[i]);
  }

  /** Multiplicity comes from the element's flag, not from the number of
      values: a flagged element with one value is a list, an unflagged one
      without values is null. */
  lemma MultiplicityFromFlag(x: XmlProperty, t: PropType)
    requires TypeFromName(x.typeName) == Some(t) && t != Undefined
    ensures DecodeProperty(x, None).Ok?
    ensures x.multi ==> DecodeProperty(x, None).value[0].1.List?
    ensures !x.multi && |x.values| > 0 ==> DecodeProperty(x, None).value[0].1.Scalar?
    ensures !x.multi && |x.values| == 0 ==> DecodeProperty(x, None).value[0].1 == Null
  {
  }

  /** A binary element decodes to the ':' + name field only. */
  lemma BinaryHasNoPlainField(x: XmlProperty)
    requires x.typeName == "Binary"
    ensures DecodeProperty(x, None).Ok?
    ensures Keys(DecodeProperty(x, None).value) == [TypeKey(x.name)]
  {
  }

  /** A dirty binary stores each payload's length and sets the payloads
      apart, a missing stream counting as "" of length 0. */
  lemma BinarySeparation(p: Property, now: string)
    requires p.ptype == Binary && p.dirty
    ensures EncodeAll([p], now).Ok?
    ensures EncodeAll([p], now).value.doc[0].values == PayloadLengths(p.values)
    ensures EncodeAll([p], now).value.binaryData == [(p.name, Payloads(p.values))]
    ensures forall i :: 0 <= i < |p.values| && p.values[i].Blob? && p.values[i].stream.None? ==>
      Payloads(p.values)[i] == "" && EncodeAll([p], now).value.doc[0].values[i] == "0"
  {
    assert [p][..0] == [];
    assert [] + Payloads(p.values) == Payloads(p.values);
  }

  /** An unknown tag fails both ways: the encoder rejects an undefined
      type, the decoder rejects an unknown type name, and an "undefined"
      element with values. */
  lemma UnknownTagFails(p: Property, x: XmlProperty, now: string, filter: Option<set<string>>)
    ensures p.ptype == Undefined ==> EncodeProperty(p, now) == Err(RepositoryError)
    ensures TypeFromName(x.typeName).None? ==> DecodeProperty(x, filter) == Err(InvalidArgument)
    ensures x.typeName == "undefined" && |x.values| > 0 ==> DecodeProperty(x, filter) == Err(InvalidArgument)
  {
  }

  /** The filter is consulted after the values are decoded: a decoding
      error surfaces even for a property the filter drops. */
  lemma FilterAfterDecoding(x: XmlProperty, filter: set<string>)
    requires x.name !in filter
    ensures DecodeProperty(x, Some(filter)).Ok? <==> DecodeProperty(x, None).Ok?
    ensures DecodeProperty(x, Some(filter)).Ok? ==> DecodeProperty(x, Some(filter)).value == []
  {
  }

  /** Names with no leading ':' never collide with type keys. */
  predicate PlainNames(ps: seq<Property>)
  {
    (forall i, j :: 0 <= i < j < |ps| ==> ps[i].name != ps[j].name)
    && (forall i, j :: 0 <= i < |ps| && 0 <= j < |ps| ==> ps[i].name != TypeKey(ps[j].name))
  }

  predicate Saveable(p: Property)
  {
    WellTyped(p) && p.ptype != Undefined
    && (p.ptype == Binary ==> forall i :: 0 <= i < |p.values| ==> p.values[i].length <= IntMax && |Payload(p.values[i])| <= IntMax)
  }

  lemma ExpectedFieldsUnique(p: Property, now: string)
    ensures UniqueKeys(ExpectedFields(p, now))
  {
    assert |TypeKey(p.name)| == |p.name| + 1;
  }

  /** The fields of two properties with distinct plain names are disjoint. */
  lemma FieldsDisjoint(p: Property, q: Property, now: string, k: string)
    requires p.name != q.name && p.name != TypeKey(q.name) && q.name != TypeKey(p.name)
    requires k in Keys(ExpectedFields(q, now))
    ensures k !in Keys(ExpectedFields(p, now))
  {
    assert TypeKey(p.name) != TypeKey(q.name) by {
      assert TypeKey(p.name)[1..] == p.name && TypeKey(q.name)[1..] == q.name;
    }
  }

  /** Encoding one more property appends one element. */
  lemma EncodeSnoc(ps: seq<Property>, now: string)
    requires |ps| > 0
    requires EncodeAll(ps[..|ps| - 1], now).Ok? && EncodeProperty(ps[|ps| - 1], now).Ok?
    ensures EncodeAll(ps, now).Ok?
    ensures EncodeAll(ps, now).value.doc == EncodeAll(ps[..|ps| - 1], now).value.doc + [EncodeProperty(ps[|ps| - 1], now).value]
  {
  }

  /** Whole-document round trip: with distinct plain names, every saved
      property's fields read back as expected from the decoded map. */
  lemma {:induction false} DocumentRoundTrip(ps: seq<Property>, now: string)
    requires PlainNames(ps)
    requires forall i :: 0 <= i < |ps| ==> Saveable(ps[i])
    ensures EncodeAll(ps, now).Ok?
    ensures Decode(EncodeAll(ps, now).value.doc, None).Ok?
    ensures forall i, k :: 0 <= i < |ps| && k in Keys(ExpectedFields(ps[i], now)) ==>
      Get(Decode(EncodeAll(ps, now).value.doc, None).value, k) == Get(ExpectedFields(ps[i], now), k)
    decreases |ps|
  {
    if |ps| > 0 {
      var init := ps[..|ps| - 1];
      var p := ps[|ps| - 1];
      assert PlainNames(init) by {
        forall i, j | 0 <= i < |init| && 0 <= j < |init| ensures init[i].name != TypeKey(init[j].name) {
          assert init[i] == ps[i] && init[j] == ps[j];
        }
      }
      DocumentRoundTrip(init, now);
      PropertyRoundTrip(p, now);
      EncodeSnoc(ps, now);
      var m := Decode(EncodeAll(init, now).value.doc, None).value;
      var doc := EncodeAll(ps, now).value.doc;
      assert doc[..|doc| - 1] == EncodeAll(init, now).value.doc;
      var f := ExpectedFields(p, now);
      assert Decode(doc, None) == Ok(PutAll(m, f));
      ExpectedFieldsUnique(p, now);
      forall i, k | 0 <= i < |ps| && k in Keys(ExpectedFields(ps[i], now))
        ensures Get(PutAll(m, f), k) == Get(ExpectedFields(ps[i], now), k)
      {
        PutAllGet(m, f, k);
        if i < |ps| - 1 {
          assert ps[i] == init[i];
          FieldsDisjoint(p, ps[i], now, k);
        }
      }
    }
  }
}

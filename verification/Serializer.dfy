/**
 The typed-object serializer (Serialization.h over JsonSerialization.cpp): the
 templates' recursion over a type, on JSON trees. None stands for an exception.
 */
module Serializer {
  import opened Common

  /** The ten types isBasicDataType recognises. */
  datatype Kind = Char | Int | Float | Double | Short | LongLong | String | Bool | UShort | UInt

  /** A C++ type: basic, with a SERIALIZE body, a std::vector, or any other. */
  datatype Type = Basic(kind: Kind) | Struct(members: seq<Member>) | Vector(elem: Type) | Foreign

  datatype Member = Member(name: Str, ty: Type)

  datatype Scalar = Number(i: int) | Real(r: real) | Text(s: Str) | Truth(b: bool)

  datatype Value = VBasic(scalar: Scalar) | VStruct(fields: seq<Value>) | VVector(items: seq<Value>) | VForeign(id: nat)

  datatype Json =
    | JNull
    | JScalar(scalar: Scalar)
    | JArray(items: seq<Json>)
    | JObject(members: map<Str, Json>)

  // -------------------------------------------------------------------- typing

  predicate Fits(kind: Kind, s: Scalar) {
    match kind
    case Char => s.Number? && -128 <= s.i < 128
    case Int => s.Number? && -TWO_31 <= s.i < TWO_31
    case Short => s.Number? && -32768 <= s.i < 32768
    case LongLong => s.Number? && -TWO_63 <= s.i < TWO_63
    case UShort => s.Number? && 0 <= s.i < 65536
    case UInt => s.Number? && 0 <= s.i < TWO_32
    case String => s.Text?
    case Bool => s.Truth?
    case _ => s.Real?
  }

  predicate HasType(v: Value, t: Type)
    decreases t
  {
    match t
    case Basic(kind) => v.VBasic? && Fits(kind, v.scalar)
    case Foreign => v.VForeign?
    case Vector(elem) => v.VVector? && forall i :: 0 <= i < |v.items| ==> HasType(v.items[i], elem)
    case Struct(ms) =>
      v.VStruct? && |v.fields| == |ms| && forall i :: 0 <= i < |ms| ==> HasType(v.fields[i], ms[i].ty)
  }

  /** Member names are distinct, at every level. */
  predicate WellNamed(t: Type) {
    match t
    case Struct(ms) =>
      && (forall i, j :: 0 <= i < j < |ms| ==> ms[i].name != ms[j].name)
      && forall i :: 0 <= i < |ms| ==> WellNamed(ms[i].ty)
    case Vector(elem) => WellNamed(elem)
    case _ => true
  }

  function Zero(kind: Kind): (s: Scalar)
    ensures Fits(kind, s)
  {
    match kind
    case String => Text([])
    case Bool => Truth(false)
    case Float => Real(0.0)
    case Double => Real(0.0)
    case _ => Number(0)
  }

  /** A default-constructed object. */
  function Default(t: Type): (v: Value)
    ensures HasType(v, t)
    decreases t, 1, 0
  {
    match t
    case Basic(kind) => VBasic(Zero(kind))
    case Foreign => VForeign(0)
    case Vector(_) => VVector([])
    case Struct(ms) => VStruct(Defaults(t, |ms|))
  }

  function Defaults(t: Type, k: nat): (vs: seq<Value>)
    requires t.Struct? && k <= |t.members|
    ensures |vs| == k && forall i :: 0 <= i < k ==> HasType(vs[i], t.members[i].ty) && vs[i] == Default(t.members[i].ty)
    decreases t, 0, k
  {
    if k == 0 then [] else Defaults(t, k - 1) + [Default(t.members[k - 1].ty)]
  }

  // ------------------------------------------------------------------- writing

  /** m_jsonValue[key] = j, on null or an object. */
  function Put(obj: Json, key: Str, j: Json): (r: Json)
    requires obj.JNull? || obj.JObject?
    ensures r.JObject?
  {
    if obj.JNull? then JObject(map[key := j]) else JObject(obj.members[key := j])
  }

  /** What saveToObject stores under its key; None when it stores nothing. */
  function Written(t: Type, v: Value): Option<Json>
    requires HasType(v, t)
    decreases t, 2, 0
  {
    match t
    case Basic(_) => Some(JScalar(v.scalar))
    case Vector(elem) => if v.items == [] then None else Some(JArray(WrittenItems(elem, v.items)))
    case _ => Some(Child(t, v))
  }

  /** The elements of a written array. */
  function WrittenItems(elem: Type, vs: seq<Value>): (js: seq<Json>)
    requires forall i :: 0 <= i < |vs| ==> HasType(vs[i], elem)
    ensures |js| == |vs|
    ensures forall i :: 0 <= i < |vs| ==>
              js[i] == if elem.Basic? && HasType(vs[i], elem) then JScalar(vs[i].scalar) else Child(elem, vs[i])
    decreases elem, 3, |vs|
  {
    if vs == [] then []
    else
      var v := vs[|vs| - 1];
      assert HasType(v, elem);
      WrittenItems(elem, vs[..|vs| - 1]) + [if elem.Basic? then JScalar(v.scalar) else Child(elem, v)]
  }

  /** swapMember for writing, into an empty object: only a SERIALIZE body does anything. */
  function Child(t: Type, v: Value): (j: Json)
    requires HasType(v, t)
    ensures j.JNull? || j.JObject?
    decreases t, 1, 0
  {
    if t.Struct? then Saved(t, v, |t.members|) else JNull
  }

  /** The first k members saved, in order. */
  function Saved(t: Type, v: Value, k: nat): (j: Json)
    requires t.Struct? && HasType(v, t) && k <= |t.members|
    ensures j.JNull? || j.JObject?
    decreases t, 0, k
  {
    if k == 0 then JNull
    else
      var before, m := Saved(t, v, k - 1), t.members[k - 1];
      match Written(m.ty, v.fields[k - 1])
      case None => before
      case Some(j) => Put(before, m.name, j)
  }

  // ------------------------------------------------------------------- reading

  /** m_jsonValue[key]; jsoncpp refuses the subscript on anything but null and objects. */
  function Lookup(obj: Json, key: Str): Option<Json> {
    match obj
    case JNull => Some(JNull)
    case JObject(ms) => Some(if key in ms then ms[key] else JNull)
    case _ => None
  }

  /** A cast to 16 bits. */
  function Narrow(i: int, signed: bool): (r: int)
    ensures signed && -32768 <= i < 32768 ==> r == i
    ensures !signed && 0 <= i < 65536 ==> r == i
    ensures if signed then -32768 <= r < 32768 else 0 <= r < 65536
    ensures (r - i) % 65536 == 0
  {
    if signed then (i + 32768) % 65536 - 32768 else i % 65536
  }

  /** The accessors asInt, asBool and so on, for JSON of another kind than theirs; None is a refusal. */
  type Conversion = (Kind, Json) -> Option<Scalar>

  /** One of these accessors: null is the zero, a value of the kind is itself, the rest is the library's business. */
  function AsKind(conv: Conversion, kind: Kind, j: Json): (r: Option<Scalar>)
    ensures r.Some? ==> Fits(kind, r.value)
    ensures j.JNull? ==> r == Some(Zero(kind))
    ensures j.JScalar? && Fits(kind, j.scalar) ==> r == Some(j.scalar)
  {
    if j.JNull? then Some(Zero(kind))
    else if j.JScalar? && Fits(kind, j.scalar) then Some(j.scalar)
    else
      match conv(kind, j)
      case None => None
      case Some(s) => if Fits(kind, s) then Some(s) else None
  }

  /** jsonValueToAny: the type and value of the std::any; a char is read as a bool, a short as a cut int. */
  function ToAny(conv: Conversion, kind: Kind, j: Json): (r: Option<(Kind, Scalar)>)
    ensures r.Some? ==> Fits(r.value.0, r.value.1) && r.value.0 == if kind == Char then Bool else kind
    ensures j.JScalar? && Fits(kind, j.scalar) && kind != Char ==> r == Some((kind, j.scalar))
  {
    match kind
    case Char =>
      (match AsKind(conv, Bool, j)
       case None => None
       case Some(s) => Some((Bool, s)))
    case Short =>
      (match AsKind(conv, Int, j)
       case None => None
       case Some(s) => Some((Short, Number(Narrow(s.i, true)))))
    case UShort =>
      (match AsKind(conv, UInt, j)
       case None => None
       case Some(s) => Some((UShort, Number(Narrow(s.i, false)))))
    case _ =>
      (match AsKind(conv, kind, j)
       case None => None
       case Some(s) => Some((kind, s)))
  }

  /** jsonValueToAny, then the any_cast: none to char accepts what was read for one. */
  function Read(conv: Conversion, kind: Kind, j: Json): (r: Option<Scalar>)
    ensures r.Some? ==> Fits(kind, r.value) && kind != Char
    ensures j.JScalar? && Fits(kind, j.scalar) && kind != Char ==> r == Some(j.scalar)
  {
    match ToAny(conv, kind, j)
    case None => None
    case Some(any) => if any.0 == kind then Some(any.1) else None
  }

  /** A short is read as an int whose low 16 bits are kept, an unsigned short likewise. */
  lemma ShortsAreCut(conv: Conversion, i: int)
    ensures -TWO_31 <= i < TWO_31 ==>
              var r := Read(conv, Short, JScalar(Number(i)));
              r.Some? && -32768 <= r.value.i < 32768 && (r.value.i - i) % 65536 == 0
    ensures 0 <= i < TWO_32 ==>
              var r := Read(conv, UShort, JScalar(Number(i)));
              r.Some? && 0 <= r.value.i < 65536 && (r.value.i - i) % 65536 == 0
  {
    hide Narrow;
  }

  /** loadFromObject on what is found under its key. */
  function LoadFrom(conv: Conversion, j: Json, t: Type, data: Value): Option<Value>
    requires HasType(data, t)
    decreases t, 2, 0
  {
    match t
    case Basic(kind) =>
      (match Read(conv, kind, j)
       case None => None
       case Some(s) => Some(VBasic(s)))
    case Vector(elem) =>
      (match j
       case JArray(js) =>
         (match LoadItems(conv, elem, js, |js|)
          case None => None
          case Some(vs) => Some(VVector(data.items + vs)))
       case JObject(ms) => if ms == map[] then Some(data) else None
       case _ => Some(data))
    case _ => if j.JNull? then Some(data) else LoadChild(conv, j, t, data)
  }

  /** swapMember for reading. */
  function LoadChild(conv: Conversion, obj: Json, t: Type, data: Value): Option<Value>
    requires HasType(data, t)
    decreases t, 1, 0
  {
    if t.Struct? then
      match Loaded(conv, obj, t, data, |t.members|)
      case None => None
      case Some(vs) => Some(VStruct(vs))
    else Some(data)
  }

  function Loaded(conv: Conversion, obj: Json, t: Type, data: Value, k: nat): (vs: Option<seq<Value>>)
    requires t.Struct? && HasType(data, t) && k <= |t.members|
    ensures vs.Some? ==> |vs.value| == k
    decreases t, 0, k
  {
    if k == 0 then Some([])
    else
      var before, m := Loaded(conv, obj, t, data, k - 1), t.members[k - 1];
      var j := Lookup(obj, m.name);
      if before.None? || j.None? then None
      else match LoadFrom(conv, j.value, m.ty, data.fields[k - 1])
        case None => None
        case Some(v) => Some(before.value + [v])
  }

  /**
   readArray and the loop over its result. The first element decides which cast
   every element gets; an object among basic elements and anything else among
   objects fails that cast.
   */
  function LoadItems(conv: Conversion, elem: Type, js: seq<Json>, k: nat): (vs: Option<seq<Value>>)
    requires k <= |js|
    ensures vs.Some? ==> |vs.value| == k
    decreases elem, 3, k
  {
    if k == 0 then Some([])
    else
      var before := LoadItems(conv, elem, js, k - 1);
      var v := LoadItem(conv, elem, js[0].JObject?, js[k - 1]);
      if before.None? || v.None? then None else Some(before.value + [v.value])
  }

  function LoadItem(conv: Conversion, elem: Type, firstIsObject: bool, j: Json): Option<Value>
    decreases elem, 2, 0
  {
    var basic := elem.Basic? && !firstIsObject;
    if j.JObject? == basic then None
    else if basic then
      match Read(conv, elem.kind, j)
      case None => None
      case Some(s) => Some(VBasic(s))
    else LoadChild(conv, j, elem, Default(elem))
  }

  /** What a member becomes when nothing is stored for it: a basic one zero, whatever it was; any other stays as it is. */
  lemma MissingMember(conv: Conversion, t: Type, data: Value)
    requires HasType(data, t)
    ensures LoadFrom(conv, JNull, t, data)
         == match t
            case Basic(kind) => if kind == Char then None else Some(VBasic(Zero(kind)))
            case _ => Some(data)
  {
    hide Narrow;
    assert Narrow(0, true) == 0 && Narrow(0, false) == 0;
  }

  /** One element of an array whose first is an object, or is not. */
  lemma MixedArrays(conv: Conversion, kind: Kind, members: seq<Member>, j: Json)
    ensures j.JObject? ==> LoadItem(conv, Basic(kind), true, j) == Some(VBasic(Zero(kind)))
    ensures !j.JObject? ==> LoadItem(conv, Basic(kind), true, j) == None
    ensures j.JObject? ==> LoadItem(conv, Basic(kind), false, j) == None
    ensures !j.JObject? ==> forall b :: LoadItem(conv, Struct(members), b, j) == None
    ensures !j.JObject? ==> forall b :: LoadItem(conv, Foreign, b, j) == None
    ensures j.JObject? ==> forall b :: LoadItem(conv, Foreign, b, j) == Some(VForeign(0))
  {
  }

  /** A vector loads nothing from what has no elements, and throws on an object that has members; a struct throws on what has none. */
  lemma OddTrees(conv: Conversion, elem: Type, items: seq<Value>, m: Member, j: Json)
    requires HasType(VVector(items), Vector(elem))
    ensures j.JNull? || j.JScalar? || j == JObject(map[]) ==>
              LoadFrom(conv, j, Vector(elem), VVector(items)) == Some(VVector(items))
    ensures j.JObject? && j != JObject(map[]) ==> LoadFrom(conv, j, Vector(elem), VVector(items)) == None
    ensures j.JScalar? || j.JArray? ==> LoadFrom(conv, j, Struct([m]), Default(Struct([m]))) == None
  {
    var t := Struct([m]);
    assert |t.members| == 1 && t.members[0] == m;
    if j.JScalar? || j.JArray? {
      assert Lookup(j, m.name) == None;
      assert Loaded(conv, j, t, Default(t), |t.members|) == None;
    }
  }

  // ----------------------------------------------------------- what comes back

  /** Saving the member stores something: it is not an empty vector. */
  predicate Stores(t: Type, v: Value)
    requires HasType(v, t)
  {
    t.Vector? ==> v.items != []
  }

  /** Some member of the struct stores something. */
  predicate Writes(t: Type, v: Value)
    requires HasType(v, t)
  {
    t.Struct? && exists i :: 0 <= i < |t.members| && Stores(t.members[i].ty, v.fields[i])
  }

  /**
   No char anywhere but in an empty vector, nothing lost in a type without a
   SERIALIZE body, and every vector element either basic or a struct that writes.
   */
  predicate Restorable(t: Type, v: Value)
    requires HasType(v, t)
    decreases t
  {
    match t
    case Basic(kind) => kind != Char
    case Foreign => v == VForeign(0)
    case Struct(ms) => forall i :: 0 <= i < |ms| ==> Restorable(ms[i].ty, v.fields[i])
    case Vector(elem) =>
      forall i :: 0 <= i < |v.items| ==>
        Restorable(elem, v.items[i]) && (elem.Basic? || Writes(elem, v.items[i]))
  }

  // ------------------------------------------------------------------- proofs

  /** What is stored for a value, or null when nothing is. */
  function Stored(t: Type, v: Value): Json
    requires HasType(v, t)
  {
    match Written(t, v)
    case None => JNull
    case Some(j) => j
  }

  /** Saving member k leaves the members below it as they were saved. */
  lemma {:induction false} SavedKeeps(t: Type, v: Value, i: nat, k: nat)
    requires t.Struct? && WellNamed(t) && HasType(v, t) && i < k <= |t.members|
    ensures Lookup(Saved(t, v, k), t.members[i].name) == Some(Stored(t.members[i].ty, v.fields[i]))
    decreases k
  {
    if i < k - 1 {
      SavedKeeps(t, v, i, k - 1);
    } else {
      SavedHasOnly(t, v, k - 1, t.members[i].name);
    }
  }

  lemma {:induction false} SavedHasOnly(t: Type, v: Value, k: nat, name: Str)
    requires t.Struct? && HasType(v, t) && k <= |t.members|
    requires forall i :: 0 <= i < k ==> t.members[i].name != name
    ensures Lookup(Saved(t, v, k), name) == Some(JNull)
    decreases k
  {
    if k > 0 {
      SavedHasOnly(t, v, k - 1, name);
    }
  }

  /** The saved object is null exactly when no member stores anything. */
  lemma {:induction false} SavedIsNull(t: Type, v: Value, k: nat)
    requires t.Struct? && HasType(v, t) && k <= |t.members|
    ensures Saved(t, v, k).JNull? <==> forall i :: 0 <= i < k ==> !Stores(t.members[i].ty, v.fields[i])
    decreases k
  {
    if k > 0 {
      SavedIsNull(t, v, k - 1);
    }
  }

  lemma ChildIsNull(t: Type, v: Value)
    requires HasType(v, t)
    ensures Child(t, v).JNull? <==> !Writes(t, v)
  {
    if t.Struct? {
      SavedIsNull(t, v, |t.members|);
    }
  }

  /** A struct that writes nothing is the default one. */
  lemma SilentIsDefault(t: Type, v: Value)
    requires t.Struct? && HasType(v, t) && !Writes(t, v)
    ensures v == Default(t)
  {
    forall i | 0 <= i < |t.members|
      ensures v.fields[i] == Default(t.members[i].ty)
    {
      assert !Stores(t.members[i].ty, v.fields[i]);
    }
    assert v.fields == Defaults(t, |t.members|);
  }

  lemma EqualUpToLast(a: seq<Value>, x: Value, b: seq<Value>, y: Value)
    requires |a| == |b|
    ensures a + [x] == b + [y] <==> a == b && x == y
  {
    assert (a + [x])[..|a|] == a && (b + [y])[..|b|] == b;
    assert (a + [x])[|a|] == x && (b + [y])[|b|] == y;
  }

  /** Member i, read from what was stored for it into a default one, is as it was. */
  ghost predicate Restored(conv: Conversion, t: Type, v: Value, i: int)
    requires t.Struct? && HasType(v, t) && 0 <= i < |t.members|
  {
    LoadFrom(conv, Stored(t.members[i].ty, v.fields[i]), t.members[i].ty, Default(t.members[i].ty))
    == Some(v.fields[i])
  }

  lemma LoadedSnoc(conv: Conversion, t: Type, v: Value, k: nat)
    requires t.Struct? && WellNamed(t) && HasType(v, t) && 0 < k <= |t.members|
    ensures var obj := Saved(t, v, |t.members|);
            Loaded(conv, obj, t, Default(t), k) == Some(v.fields[..k])
            <==> Loaded(conv, obj, t, Default(t), k - 1) == Some(v.fields[..k - 1]) && Restored(conv, t, v, k - 1)
  {
    SavedKeeps(t, v, k - 1, |t.members|);
    hide LoadFrom, Stored, Saved, Defaults, WellNamed;
    var obj, m := Saved(t, v, |t.members|), t.members[k - 1];
    assert v.fields[..k] == v.fields[..k - 1] + [v.fields[k - 1]];
    assert Default(t).fields[k - 1] == Default(m.ty);
    var before := Loaded(conv, obj, t, Default(t), k - 1);
    var last := LoadFrom(conv, Stored(m.ty, v.fields[k - 1]), m.ty, Default(m.ty));
    if before.Some? && last.Some? {
      EqualUpToLast(before.value, last.value, v.fields[..k - 1], v.fields[k - 1]);
    }
  }

  lemma NothingLoaded(conv: Conversion, obj: Json, t: Type, data: Value)
    requires t.Struct? && HasType(data, t)
    ensures Loaded(conv, obj, t, data, 0) == Some([])
  {
  }

  /** The members read back are those restored one by one. */
  lemma {:induction false} LoadedIsPointwise(conv: Conversion, t: Type, v: Value, k: nat)
    requires t.Struct? && WellNamed(t) && HasType(v, t) && k <= |t.members|
    ensures Loaded(conv, Saved(t, v, |t.members|), t, Default(t), k) == Some(v.fields[..k])
            <==> forall i :: 0 <= i < k ==> Restored(conv, t, v, i)
    decreases k
  {
    hide Restored, Saved, WellNamed, Loaded, HasType, Defaults;
    if k == 0 {
      NothingLoaded(conv, Saved(t, v, |t.members|), t, Default(t));
    } else {
      LoadedIsPointwise(conv, t, v, k - 1);
      LoadedSnoc(conv, t, v, k);
    }
  }

  lemma ItemsSnoc(conv: Conversion, elem: Type, js: seq<Json>, vs: seq<Value>, k: nat)
    requires 0 < k <= |js| == |vs|
    ensures LoadItems(conv, elem, js, k) == Some(vs[..k])
            <==> LoadItems(conv, elem, js, k - 1) == Some(vs[..k - 1])
                 && LoadItem(conv, elem, js[0].JObject?, js[k - 1]) == Some(vs[k - 1])
  {
    hide LoadItem;
    assert vs[..k] == vs[..k - 1] + [vs[k - 1]];
    var before, last := LoadItems(conv, elem, js, k - 1), LoadItem(conv, elem, js[0].JObject?, js[k - 1]);
    if before.Some? && last.Some? {
      EqualUpToLast(before.value, last.value, vs[..k - 1], vs[k - 1]);
    }
  }

  /** The elements read back are those restored one by one. */
  lemma {:induction false} ItemsArePointwise(conv: Conversion, elem: Type, js: seq<Json>, vs: seq<Value>, k: nat)
    requires k <= |js| == |vs|
    ensures LoadItems(conv, elem, js, k) == Some(vs[..k])
            <==> forall i :: 0 <= i < k ==> LoadItem(conv, elem, js[0].JObject?, js[i]) == Some(vs[i])
    decreases k
  {
    hide LoadItem;
    if k > 0 {
      hide LoadItems;
      ItemsArePointwise(conv, elem, js, vs, k - 1);
      ItemsSnoc(conv, elem, js, vs, k);
    }
  }

  /** Saving under a key and loading it back into a default member restores exactly the restorable values. */
  lemma {:induction false} MemberRoundTrip(conv: Conversion, t: Type, v: Value)
    requires HasType(v, t) && WellNamed(t)
    ensures LoadFrom(conv, Stored(t, v), t, Default(t)) == Some(v) <==> Restorable(t, v)
    decreases t, 1
  {
    match t
    case Basic(kind) =>
    case Foreign =>
    case Struct(ms) =>
      ChildRoundTrip(conv, t, v);
      ChildIsNull(t, v);
      if !Writes(t, v) {
        SilentIsDefault(t, v);
      }
    case Vector(elem) =>
      ArrayRoundTrip(conv, elem, v.items);
      VectorIsItsArray(conv, elem, v.items);
  }

  lemma StoredVector(elem: Type, vs: seq<Value>)
    requires forall i :: 0 <= i < |vs| ==> HasType(vs[i], elem)
    ensures Stored(Vector(elem), VVector(vs)) == if vs == [] then JNull else JArray(WrittenItems(elem, vs))
  {
    hide WrittenItems;
  }

  lemma {:induction false} LoadArray(conv: Conversion, elem: Type, js: seq<Json>)
    ensures LoadFrom(conv, JArray(js), Vector(elem), VVector([]))
         == match LoadItems(conv, elem, js, |js|)
            case None => None
            case Some(vs) => Some(VVector(vs))
  {
    hide LoadItems;
    assert forall vs: seq<Value> :: [] + vs == vs;
  }

  lemma {:induction false} VectorIsItsArray(conv: Conversion, elem: Type, vs: seq<Value>)
    requires forall i :: 0 <= i < |vs| ==> HasType(vs[i], elem)
    ensures var t, v := Vector(elem), VVector(vs);
            LoadFrom(conv, Stored(t, v), t, Default(t)) == Some(v)
            <==> LoadItems(conv, elem, WrittenItems(elem, vs), |vs|) == Some(vs)
  {
    StoredVector(elem, vs);
    if vs != [] {
      hide LoadItems, LoadFrom, WrittenItems, Stored, HasType;
      LoadArray(conv, elem, WrittenItems(elem, vs));
    }
  }

  /** The same for the object as a whole. */
  lemma {:induction false} ChildRoundTrip(conv: Conversion, t: Type, v: Value)
    requires HasType(v, t) && WellNamed(t)
    ensures t.Struct? ==> (LoadChild(conv, Child(t, v), t, Default(t)) == Some(v) <==> Restorable(t, v))
    decreases t, 0
  {
    if t.Struct? {
      forall i | 0 <= i < |t.members|
        ensures Restored(conv, t, v, i) <==> Restorable(t.members[i].ty, v.fields[i])
      {
        MemberRoundTrip(conv, t.members[i].ty, v.fields[i]);
      }
      LoadedIsPointwise(conv, t, v, |t.members|);
      assert v.fields[..|t.members|] == v.fields;
    }
  }

  lemma {:induction false} ArrayRoundTrip(conv: Conversion, elem: Type, vs: seq<Value>)
    requires forall i :: 0 <= i < |vs| ==> HasType(vs[i], elem)
    requires WellNamed(elem)
    ensures LoadItems(conv, elem, WrittenItems(elem, vs), |vs|) == Some(vs)
            <==> forall i :: 0 <= i < |vs| ==> Restorable(elem, vs[i]) && (elem.Basic? || Writes(elem, vs[i]))
    decreases elem, 2
  {
    var js := WrittenItems(elem, vs);
    ItemsArePointwise(conv, elem, js, vs, |vs|);
    assert vs[..|vs|] == vs;
    forall i | 0 <= i < |vs|
      ensures LoadItem(conv, elem, js[0].JObject?, js[i]) == Some(vs[i])
              <==> Restorable(elem, vs[i]) && (elem.Basic? || Writes(elem, vs[i]))
    {
      assert HasType(vs[i], elem) && HasType(vs[0], elem);
      if !elem.Basic? {
        ChildIsNull(elem, vs[i]);
        ChildRoundTrip(conv, elem, vs[i]);
      }
    }
  }

  // ------------------------------------------------ the tree that is stored

  /** What is stored for a value, by its type: a scalar as itself, elements in order, a struct as its own tree. */
  lemma StoredShape(t: Type, v: Value)
    requires HasType(v, t)
    ensures t.Basic? ==> Stored(t, v) == JScalar(v.scalar)
    ensures t.Foreign? ==> Stored(t, v) == JNull
    ensures t.Struct? ==> Stored(t, v) == Child(t, v)
    ensures t.Vector? && v.items == [] ==> Stored(t, v) == JNull
    ensures t.Vector? && v.items != [] ==>
              && Stored(t, v).JArray? && |Stored(t, v).items| == |v.items|
              && forall i :: 0 <= i < |v.items| ==>
                   Stored(t, v).items[i] == if t.elem.Basic? && HasType(v.items[i], t.elem) then JScalar(v.items[i].scalar)
                                            else Child(t.elem, v.items[i])
  {
  }

  /** The keys of a saved struct are the names of the members that store something, empty vectors alone being left out. */
  lemma {:induction false} SavedKeysExactly(t: Type, v: Value, k: nat, key: Str)
    requires t.Struct? && HasType(v, t) && k <= |t.members|
    ensures var obj := Saved(t, v, k);
            (obj.JObject? && key in obj.members)
            <==> exists i :: 0 <= i < k && t.members[i].name == key && Stores(t.members[i].ty, v.fields[i])
    decreases k
  {
    if k > 0 {
      SavedKeysExactly(t, v, k - 1, key);
      assert Written(t.members[k - 1].ty, v.fields[k - 1]).Some? <==> Stores(t.members[k - 1].ty, v.fields[k - 1]);
    }
  }

  // ------------------------------------------------ loading into any member

  /** What a value leaves of the data it is loaded over: vectors append, silent objects change nothing. */
  function Overlay(t: Type, data: Value, v: Value): (r: Value)
    requires HasType(data, t) && HasType(v, t)
    decreases t, 1, 0
  {
    match t
    case Basic(_) => v
    case Foreign => data
    case Vector(_) => VVector(data.items + v.items)
    case Struct(ms) => if Writes(t, v) then VStruct(Overlays(t, data, v, |ms|)) else data
  }

  function Overlays(t: Type, data: Value, v: Value, k: nat): (vs: seq<Value>)
    requires t.Struct? && HasType(data, t) && HasType(v, t) && k <= |t.members|
    ensures |vs| == k
    decreases t, 0, k
  {
    if k == 0 then []
    else Overlays(t, data, v, k - 1) + [Overlay(t.members[k - 1].ty, data.fields[k - 1], v.fields[k - 1])]
  }

  lemma OverlaySnoc(conv: Conversion, t: Type, data: Value, v: Value, k: nat)
    requires t.Struct? && WellNamed(t) && HasType(data, t) && HasType(v, t) && 0 < k <= |t.members|
    requires var m := t.members[k - 1];
             LoadFrom(conv, Stored(m.ty, v.fields[k - 1]), m.ty, data.fields[k - 1])
             == Some(Overlay(m.ty, data.fields[k - 1], v.fields[k - 1]))
    requires Loaded(conv, Saved(t, v, |t.members|), t, data, k - 1) == Some(Overlays(t, data, v, k - 1))
    ensures Loaded(conv, Saved(t, v, |t.members|), t, data, k) == Some(Overlays(t, data, v, k))
  {
    SavedKeeps(t, v, k - 1, |t.members|);
    hide LoadFrom, Stored, Saved, WellNamed, Overlay;
  }

  lemma {:induction false} OverlayMembers(conv: Conversion, t: Type, data: Value, v: Value, k: nat)
    requires t.Struct? && WellNamed(t) && HasType(data, t) && HasType(v, t) && Restorable(t, v) && k <= |t.members|
    ensures Loaded(conv, Saved(t, v, |t.members|), t, data, k) == Some(Overlays(t, data, v, k))
    decreases t, 0, k
  {
    if k > 0 {
      OverlayMembers(conv, t, data, v, k - 1);
      LoadsOver(conv, t.members[k - 1].ty, data.fields[k - 1], v.fields[k - 1]);
      OverlaySnoc(conv, t, data, v, k);
    }
  }

  lemma {:induction false} ArrayLoadsOver(conv: Conversion, elem: Type, data: Value, v: Value)
    requires HasType(data, Vector(elem)) && HasType(v, Vector(elem)) && WellNamed(elem) && Restorable(Vector(elem), v)
    ensures LoadFrom(conv, Stored(Vector(elem), v), Vector(elem), data) == Some(VVector(data.items + v.items))
  {
    StoredVector(elem, v.items);
    if v.items == [] {
      assert data.items + [] == data.items;
    } else {
      ArrayRoundTrip(conv, elem, v.items);
      hide LoadItems, WrittenItems, Stored;
    }
  }

  /** Loading over any data, not only a default one, leaves what the value lays over it. */
  lemma {:induction false} LoadsOver(conv: Conversion, t: Type, data: Value, v: Value)
    requires HasType(data, t) && HasType(v, t) && WellNamed(t) && Restorable(t, v)
    ensures LoadFrom(conv, Stored(t, v), t, data) == Some(Overlay(t, data, v))
    decreases t, 1, 0
  {
    match t
    case Basic(kind) =>
    case Foreign =>
    case Vector(elem) => ArrayLoadsOver(conv, elem, data, v);
    case Struct(ms) =>
      ChildIsNull(t, v);
      if Writes(t, v) {
        OverlayMembers(conv, t, data, v, |ms|);
      }
  }

  // ------------------------------------------------- schemas that never lose

  /** No char, no type without a SERIALIZE body, and vectors only of basic types or of structs sure to write. */
  predicate Lossless(t: Type) {
    match t
    case Basic(kind) => kind != Char
    case Foreign => false
    case Struct(ms) => forall i :: 0 <= i < |ms| ==> Lossless(ms[i].ty)
    case Vector(elem) =>
      Lossless(elem) && (elem.Basic? || (elem.Struct? && exists i :: 0 <= i < |elem.members| && !elem.members[i].ty.Vector?))
  }

  lemma {:induction false} LosslessRestores(t: Type, v: Value)
    requires Lossless(t) && HasType(v, t)
    ensures Restorable(t, v)
    decreases t
  {
    match t
    case Struct(ms) =>
      forall i | 0 <= i < |ms|
        ensures Restorable(ms[i].ty, v.fields[i])
      {
        LosslessRestores(ms[i].ty, v.fields[i]);
      }
    case Vector(elem) =>
      forall i | 0 <= i < |v.items|
        ensures Restorable(elem, v.items[i]) && (elem.Basic? || Writes(elem, v.items[i]))
      {
        LosslessRestores(elem, v.items[i]);
        if !elem.Basic? {
          var k :| 0 <= k < |elem.members| && !elem.members[k].ty.Vector?;
          assert Stores(elem.members[k].ty, v.items[i].fields[k]);
        }
      }
    case _ =>
  }

  /** A value of a lossy type that does not come back. */
  lemma {:induction false} LossyLoses(t: Type) returns (v: Value)
    requires !Lossless(t)
    ensures HasType(v, t) && !Restorable(t, v)
    decreases t
  {
    match t
    case Basic(kind) => v := VBasic(Zero(kind));
    case Foreign => v := VForeign(1);
    case Struct(ms) =>
      var i :| 0 <= i < |ms| && !Lossless(ms[i].ty);
      var w := LossyLoses(ms[i].ty);
      v := VStruct(Defaults(t, |ms|)[i := w]);
      assert v.fields[i] == w;
    case Vector(elem) =>
      if Lossless(elem) {
        v := VVector([Default(elem)]);
        assert v.items[0] == Default(elem);
        if elem.Struct? {
          assert forall i :: 0 <= i < |elem.members| ==> !Stores(elem.members[i].ty, Default(elem).fields[i]);
        }
      } else {
        var w := LossyLoses(elem);
        v := VVector([w]);
        assert v.items[0] == w;
      }
  }

  /** Every value of a type survives saving and loading exactly when the type is lossless. */
  lemma LosslessExactly(conv: Conversion, t: Type)
    requires WellNamed(t)
    ensures Lossless(t)
            <==> forall v :: HasType(v, t) ==> LoadFrom(conv, Stored(t, v), t, Default(t)) == Some(v)
  {
    hide LoadFrom, Stored, Lossless, Restorable, WellNamed;
    if Lossless(t) {
      forall v | HasType(v, t)
        ensures LoadFrom(conv, Stored(t, v), t, Default(t)) == Some(v)
      {
        LosslessRestores(t, v);
        MemberRoundTrip(conv, t, v);
      }
    } else {
      var v := LossyLoses(t);
      MemberRoundTrip(conv, t, v);
    }
  }

  // --------------------------------------------------------------- the object

  /** What a subscript leaves behind: a missing key now holds null. */
  function Touched(obj: Json, key: Str): (r: Json)
    requires Lookup(obj, key).Some?
    ensures forall k :: Lookup(r, k) == Lookup(obj, k)
  {
    match obj
    case JObject(ms) => if key in ms then obj else JObject(ms[key := JNull])
    case _ => JObject(map[key := JNull])
  }

  /** Two trees that answer every subscript alike. */
  ghost predicate Alike(a: Json, b: Json) {
    forall key :: Lookup(a, key) == Lookup(b, key)
  }

  /** Every key reads as before, but for one, which reads as j; and no other key has appeared. */
  ghost predicate StoredUnder(before: Json, after: Json, key: Str, j: Json) {
    && after.JObject?
    && after.members.Keys == KeysOf(before) + {key}
    && Lookup(after, key) == Some(j)
    && forall other :: other != key ==> Lookup(after, other) == Lookup(before, other)
  }

  function KeysOf(obj: Json): set<Str> {
    if obj.JObject? then obj.members.Keys else {}
  }

  lemma StoredIsPut(before: Json, after: Json, key: Str, j: Json)
    requires (before.JNull? || before.JObject?) && StoredUnder(before, after, key, j)
    ensures after == Put(before, key, j)
  {
    var put := Put(before, key, j);
    assert put.members.Keys == after.members.Keys;
    forall k | k in put.members
      ensures put.members[k] == after.members[k]
    {
      assert k != key ==> Lookup(after, k) == Lookup(before, k);
    }
    assert put.members == after.members;
  }

  class JsonCppObjectAdapter {
    var jsonValue: Json

    constructor ()
      ensures jsonValue == JNull
    {
      jsonValue := JNull;
    }

    ghost predicate Writable()
      reads this
    {
      jsonValue.JNull? || jsonValue.JObject?
    }

    method WriteValue(key: Str, data: Scalar)
      requires Writable()
      modifies this
      ensures StoredUnder(old(jsonValue), jsonValue, key, JScalar(data))
    {
      jsonValue := Put(jsonValue, key, JScalar(data));
    }

    method UpdateChildObject(key: Str, child: JsonCppObjectAdapter)
      requires Writable()
      modifies this
      ensures StoredUnder(old(jsonValue), jsonValue, key, old(child.jsonValue))
    {
      jsonValue := Put(jsonValue, key, child.jsonValue);
    }

    method WriteArray(key: Str, datas: seq<Json>)
      requires Writable()
      modifies this
      ensures datas == [] ==> jsonValue == old(jsonValue)
      ensures datas != [] ==> StoredUnder(old(jsonValue), jsonValue, key, JArray(datas))
    {
      if datas == [] {
        return;
      }
      jsonValue := Put(jsonValue, key, JArray(datas));
    }

    /** m_jsonValue[key] in an expression. */
    method Subscript(key: Str) returns (j: Option<Json>)
      modifies this
      ensures j == Lookup(old(jsonValue), key)
      ensures Alike(jsonValue, old(jsonValue))
    {
      j := Lookup(jsonValue, key);
      if j.Some? {
        jsonValue := Touched(jsonValue, key);
      }
    }

    method ReadValue(conv: Conversion, key: Str, kind: Kind) returns (any: Option<(Kind, Scalar)>)
      modifies this
      ensures var j := Lookup(old(jsonValue), key);
              any == if j.None? then None else ToAny(conv, kind, j.value)
      ensures Alike(jsonValue, old(jsonValue))
    {
      var j := Subscript(key);
      if j.None? {
        return None;
      }
      any := ToAny(conv, kind, j.value);
    }

    /** A copy of the child, or null; None is the exception. */
    method ChildObject(key: Str) returns (r: Option<JsonCppObjectAdapter?>)
      modifies this
      ensures var j := Lookup(old(jsonValue), key);
              && (r.None? <==> j.None?)
              && (r.Some? ==> (r.value == null <==> j.value.JNull?))
              && (r.Some? && r.value != null ==> fresh(r.value) && r.value.jsonValue == j.value)
      ensures Alike(jsonValue, old(jsonValue))
    {
      var j := Subscript(key);
      if j.None? {
        return None;
      }
      if j.value.JNull? {
        return Some(null);
      }
      var child := new JsonCppObjectAdapter();
      child.jsonValue := j.value;
      r := Some(child);
    }
  }

  /** saveToObject, both overloads. */
  method SaveToObject(key: Str, t: Type, data: Value, target: JsonCppObjectAdapter)
    requires HasType(data, t) && target.Writable()
    modifies target
    ensures target.jsonValue == match Written(t, data)
                                case None => old(target.jsonValue)
                                case Some(j) => Put(old(target.jsonValue), key, j)
    decreases t, 2, 0
  {
    match t {
      case Basic(_) =>
        target.WriteValue(key, data.scalar);
        StoredIsPut(old(target.jsonValue), target.jsonValue, key, JScalar(data.scalar));
      case Vector(elem) =>
        if data.items == [] {
          return;
        }
        var tempVector := SaveItems(elem, data.items);
        target.WriteArray(key, tempVector);
        StoredIsPut(old(target.jsonValue), target.jsonValue, key, JArray(tempVector));
      case _ =>
        var child := new JsonCppObjectAdapter();
        SwapMemberForWrite(t, data, child);
        target.UpdateChildObject(key, child);
        StoredIsPut(old(target.jsonValue), target.jsonValue, key, child.jsonValue);
    }
  }

  method SaveItems(elem: Type, datas: seq<Value>) returns (tempVector: seq<Json>)
    requires forall i :: 0 <= i < |datas| ==> HasType(datas[i], elem)
    ensures tempVector == WrittenItems(elem, datas)
    decreases elem, 3, |datas|
  {
    tempVector := [];
    for i := 0 to |datas|
      invariant tempVector == WrittenItems(elem, datas)[..i]
    {
      assert HasType(datas[i], elem);
      if elem.Basic? {
        tempVector := tempVector + [JScalar(datas[i].scalar)];
      } else {
        var child := new JsonCppObjectAdapter();
        SwapMemberForWrite(elem, datas[i], child);
        tempVector := tempVector + [child.jsonValue];
      }
    }
  }

  /** swapMember with isForWrite: a SERIALIZE body saves its members in order, the primary template does nothing. */
  method SwapMemberForWrite(t: Type, data: Value, target: JsonCppObjectAdapter)
    requires HasType(data, t) && target.jsonValue == JNull
    modifies target
    ensures target.jsonValue == Child(t, data)
    decreases t, 1, 0
  {
    if t.Struct? {
      for k := 0 to |t.members|
        invariant target.jsonValue == Saved(t, data, k)
      {
        SaveToObject(t.members[k].name, t.members[k].ty, data.fields[k], target);
      }
    }
  }

  /** loadFromObject, both overloads. */
  method LoadFromObject(conv: Conversion, key: Str, t: Type, data: Value, target: JsonCppObjectAdapter) returns (r: Option<Value>)
    requires HasType(data, t)
    modifies target
    ensures var j := Lookup(old(target.jsonValue), key);
            r == if j.None? then None else LoadFrom(conv, j.value, t, data)
    ensures Alike(target.jsonValue, old(target.jsonValue))
    decreases t, 2, 0
  {
    match t {
      case Basic(kind) =>
        var tempData := target.ReadValue(conv, key, kind);
        if tempData.None? || tempData.value.0 != kind {
          return None;
        }
        r := Some(VBasic(tempData.value.1));
      case Vector(elem) =>
        var json := target.Subscript(key);
        if json.None? {
          return None;
        }
        r := LoadVector(conv, elem, data.items, json.value);
      case _ =>
        var child := target.ChildObject(key);
        if child.None? {
          return None;
        }
        if child.value == null {
          return Some(data);
        }
        r := SwapMemberForRead(conv, t, data, child.value);
    }
  }

  /** The array branch: readArray, then a loop of casts decided by the first element. */
  method LoadVector(conv: Conversion, elem: Type, datas: seq<Value>, json: Json) returns (r: Option<Value>)
    requires HasType(VVector(datas), Vector(elem))
    ensures r == LoadFrom(conv, json, Vector(elem), VVector(datas))
    decreases elem, 4, 0
  {
    if json.JObject? && json.members != map[] {
      return None;
    }
    if !json.JArray? {
      return Some(VVector(datas));
    }
    var js := json.items;
    var loaded: seq<Value> := [];
    for i := 0 to |js|
      invariant LoadItems(conv, elem, js, i) == Some(loaded)
    {
      var v := LoadElement(conv, elem, js[0].JObject?, js[i]);
      if v.None? {
        NoItemNoArray(conv, elem, js, i + 1, |js|);
        return None;
      }
      loaded := loaded + [v.value];
    }
    r := Some(VVector(datas + loaded));
  }

  method LoadElement(conv: Conversion, elem: Type, firstIsObject: bool, j: Json) returns (v: Option<Value>)
    ensures v == LoadItem(conv, elem, firstIsObject, j)
    decreases elem, 3, 0
  {
    var basic := elem.Basic? && !firstIsObject;
    if j.JObject? == basic {
      return None;
    }
    if basic {
      var any := ToAny(conv, elem.kind, j);
      if any.None? || any.value.0 != elem.kind {
        return None;
      }
      return Some(VBasic(any.value.1));
    }
    var child := new JsonCppObjectAdapter();
    child.jsonValue := j;
    v := SwapMemberForRead(conv, elem, Default(elem), child);
  }

  /** swapMember without isForWrite. */
  method SwapMemberForRead(conv: Conversion, t: Type, data: Value, target: JsonCppObjectAdapter) returns (r: Option<Value>)
    requires HasType(data, t)
    modifies target
    ensures r == LoadChild(conv, old(target.jsonValue), t, data)
    decreases t, 1, 0
  {
    if !t.Struct? {
      return Some(data);
    }
    ghost var obj := target.jsonValue;
    var fields: seq<Value> := [];
    for k := 0 to |t.members|
      invariant Alike(target.jsonValue, obj)
      invariant Loaded(conv, obj, t, data, k) == Some(fields)
    {
      var m := t.members[k];
      var v := LoadFromObject(conv, m.name, m.ty, data.fields[k], target);
      if v.None? {
        NoMemberNoObject(conv, obj, t, data, k + 1, |t.members|);
        return None;
      }
      fields := fields + [v.value];
    }
    r := Some(VStruct(fields));
  }

  lemma {:induction false} NoItemNoArray(conv: Conversion, elem: Type, js: seq<Json>, i: nat, k: nat)
    requires i <= k <= |js| && LoadItems(conv, elem, js, i) == None
    ensures LoadItems(conv, elem, js, k) == None
    decreases k
  {
    if i < k {
      NoItemNoArray(conv, elem, js, i, k - 1);
    }
  }

  lemma {:induction false} NoMemberNoObject(conv: Conversion, obj: Json, t: Type, data: Value, i: nat, k: nat)
    requires t.Struct? && HasType(data, t) && i <= k <= |t.members| && Loaded(conv, obj, t, data, i) == None
    ensures Loaded(conv, obj, t, data, k) == None
    decreases k
  {
    if i < k {
      NoMemberNoObject(conv, obj, t, data, i, k - 1);
    }
  }
}

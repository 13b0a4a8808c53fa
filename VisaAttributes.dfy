/**
 * The VISA attribute metadata helpers: an inclusive integer range (`_AttrRange`), a
 * name/value table for enumerated attributes (`_AttrSet`), the attribute record
 * (`viAttrInfo`) and the load-time step that re-keys the name-keyed attribute table by
 * the attributes' integer codes.
 *
 * The constants namespace the source looks names up in (`vpp43_constants`) is a
 * parameter `constants: map<string, int>`; the iteration order of a dictionary is a
 * parameter `order: seq<string>` that lists its keys once each.
 */
module VisaAttributes {
  import opened Wrappers
  import opened Exceptions
  import Decimal

  // ---------------------------------------------------------------------------
  // Name resolution and re-keying, shared by `_AttrSet` and the catalog build

  /** Every name of `names` is a key of `m`: looking them up raises no KeyError. */
  predicate Resolved<V>(names: seq<string>, m: map<string, V>) {
    forall n :: n in names ==> n in m
  }

  /** The position of the first name that is not a key of `m`: where the KeyError is raised. */
  function FirstMissing<V>(names: seq<string>, m: map<string, V>): (k: nat)
    requires !Resolved(names, m)
    ensures k < |names| && names[k] !in m
    ensures forall j :: 0 <= j < k ==> names[j] in m
  {
    if names[0] !in m then 0
    else
      assert names == [names[0]] + names[1..];
      1 + FirstMissing(names[1..], m)
  }

  /** The first `i` names are keys of both maps. */
  predicate ResolvedUpTo<V, W>(names: seq<string>, i: nat, codes: map<string, V>, vals: map<string, W>) {
    i <= |names| && forall j :: 0 <= j < i ==> names[j] in codes && names[j] in vals
  }

  /** The first name missing from `m` is at `i` when the names before it are all there. */
  lemma FirstMissingAt<V>(names: seq<string>, m: map<string, V>, i: int)
    requires 0 <= i < |names| && names[i] !in m
    requires forall j :: 0 <= j < i ==> names[j] in m
    ensures !Resolved(names, m) && FirstMissing(names, m) == i
  {
  }

  /** The names are all in `m` when every position is. */
  lemma ResolvedAll<V>(names: seq<string>, m: map<string, V>)
    requires forall j :: 0 <= j < |names| ==> names[j] in m
    ensures Resolved(names, m)
  {
  }

  /**
   * The dictionary `d` after the first `i` steps of `for n in names: d[codes[n]] = vals[n]`,
   * starting empty. A later name overwrites an earlier one with the same code.
   */
  function RekeyUpTo<K, V>(names: seq<string>, i: nat, codes: map<string, K>, vals: map<string, V>): map<K, V>
    requires ResolvedUpTo(names, i, codes, vals)
  {
    if i == 0 then map[]
    else RekeyUpTo(names, i - 1, codes, vals)[codes[names[i - 1]] := vals[names[i - 1]]]
  }

  /** The dictionary after the whole loop. */
  function Rekey<K, V>(names: seq<string>, codes: map<string, K>, vals: map<string, V>): map<K, V>
    requires Resolved(names, codes) && Resolved(names, vals)
  {
    assert forall j :: 0 <= j < |names| ==> names[j] in names;
    RekeyUpTo(names, |names|, codes, vals)
  }

  /** Among the first `i` names, `names[j]` is the last one whose code is `v`. */
  ghost predicate IsLastWithCode<K>(names: seq<string>, i: nat, codes: map<string, K>, j: int, v: K)
    requires i <= |names| && forall k :: 0 <= k < i ==> names[k] in codes
  {
    0 <= j < i && codes[names[j]] == v &&
    forall k :: j < k < i ==> codes[names[k]] != v
  }

  /**
   * What the first `i` steps of re-keying produce at one code: the code is a key exactly
   * when one of those names has it, and the value stored there is that of the LAST of them.
   */
  lemma {:induction false} RekeyUpToAt<K, V>(names: seq<string>, i: nat, codes: map<string, K>, vals: map<string, V>, v: K)
    requires ResolvedUpTo(names, i, codes, vals)
    ensures v in RekeyUpTo(names, i, codes, vals) <==> exists j :: 0 <= j < i && codes[names[j]] == v
    ensures v in RekeyUpTo(names, i, codes, vals) ==>
      exists j :: IsLastWithCode(names, i, codes, j, v) && RekeyUpTo(names, i, codes, vals)[v] == vals[names[j]]
  {
    if i > 0 {
      RekeyUpToAt(names, i - 1, codes, vals, v);
      if codes[names[i - 1]] == v {
        assert IsLastWithCode(names, i, codes, i - 1, v);
      } else if v in RekeyUpTo(names, i, codes, vals) {
        var j :| IsLastWithCode(names, i - 1, codes, j, v) && RekeyUpTo(names, i - 1, codes, vals)[v] == vals[names[j]];
        assert IsLastWithCode(names, i, codes, j, v);
      }
    }
  }

  /** `RekeyUpToAt` for the whole loop. */
  lemma RekeyAt<K, V>(names: seq<string>, codes: map<string, K>, vals: map<string, V>, v: K)
    requires Resolved(names, codes) && Resolved(names, vals)
    ensures v in Rekey(names, codes, vals) <==> exists j :: 0 <= j < |names| && codes[names[j]] == v
    ensures v in Rekey(names, codes, vals) ==>
      exists j :: IsLastWithCode(names, |names|, codes, j, v) && Rekey(names, codes, vals)[v] == vals[names[j]]
  {
    assert forall j :: 0 <= j < |names| ==> names[j] in names;
    RekeyUpToAt(names, |names|, codes, vals, v);
  }

  /** Without collisions, re-keying keeps every name's value, under that name's code. */
  lemma RekeyInjective<K, V>(names: seq<string>, codes: map<string, K>, vals: map<string, V>, n: string)
    requires Resolved(names, codes) && Resolved(names, vals)
    requires forall a, b :: a in names && b in names && a != b ==> codes[a] != codes[b]
    requires n in names
    ensures codes[n] in Rekey(names, codes, vals) && Rekey(names, codes, vals)[codes[n]] == vals[n]
  {
    RekeyAt(names, codes, vals, codes[n]);
  }

  /**
   * With a collision, the value of the name iterated first is overwritten: when the names
   * are distinct and so are their values, no code holds it any more.
   */
  lemma RekeyCollisionDrops<K, V>(names: seq<string>, codes: map<string, K>, vals: map<string, V>, i: int, j: int)
    requires Resolved(names, codes) && Resolved(names, vals)
    requires forall p, q :: 0 <= p < q < |names| ==> names[p] != names[q]
    requires forall a, b :: a in names && b in names && a != b ==> vals[a] != vals[b]
    requires 0 <= i < j < |names| && codes[names[i]] == codes[names[j]]
    ensures forall v :: v in Rekey(names, codes, vals) ==> Rekey(names, codes, vals)[v] != vals[names[i]]
  {
    var r := Rekey(names, codes, vals);
    forall v | v in r ensures r[v] != vals[names[i]] {
      RekeyAt(names, codes, vals, v);
      var m :| IsLastWithCode(names, |names|, codes, m, v) && r[v] == vals[names[m]];
      if m != i {
        assert names[m] != names[i];
      }
    }
  }

  // ---------------------------------------------------------------------------
  // _AttrRange

  /** An inclusive integer range; the source never changes it after construction. */
  datatype AttrRange = AttrRange(minimum: int, maximum: int) {

    /** `item in range`. */
    predicate Contains(item: int)
      ensures Contains(item) <==> minimum <= item <= maximum
    {
      item >= minimum && item <= maximum
    }

    /** `tostring`: the decimal string of an in-range value; IndexError otherwise. */
    function ToString(val: int): (r: Result<string, Error>)
      ensures r.Success? <==> minimum <= val <= maximum
      ensures r.Failure? ==> r.error == IndexError
      ensures r.Success? ==> Decimal.IsCanonical(r.value) && FromString(r.value) == Success(val)
    {
      if Contains(val) then
        Decimal.StrIntRoundTrip(val);
        Success(Decimal.Str(val))
      else
        Failure(IndexError)
    }

    /** `fromstring`: `int(strval)`, with no range check. */
    function FromString(strval: string): (r: Result<int, Error>)
      ensures r.Failure? <==> !Decimal.IsNumeral(strval)
      ensures r.Failure? ==> r.error == ValueError(strval)
      ensures Decimal.IsCanonical(strval) ==> r.Success? && Decimal.Str(r.value) == strval
    {
      if Decimal.IsCanonical(strval) then
        Decimal.IntStrRoundTrip(strval);
        Decimal.Int(strval)
      else
        Decimal.Int(strval)
    }
  }

  /** Membership is inclusive at both ends and stops right past them. */
  lemma RangeBounds(r: AttrRange)
    ensures r.Contains(r.minimum) <==> r.minimum <= r.maximum
    ensures r.Contains(r.maximum) <==> r.minimum <= r.maximum
    ensures !r.Contains(r.minimum - 1) && !r.Contains(r.maximum + 1)
  {
  }

  /** Round trip: `fromstring(tostring(val)) == val` for every value in range. */
  lemma RangeRoundTrip(r: AttrRange, val: int)
    requires r.Contains(val)
    ensures r.ToString(val).Success? && r.FromString(r.ToString(val).value) == Success(val)
  {
  }

  /** Every string `tostring` accepts back is the one it produced. */
  lemma RangeStringRoundTrip(r: AttrRange, s: string)
    requires Decimal.IsCanonical(s) && r.Contains(r.FromString(s).value)
    ensures r.ToString(r.FromString(s).value) == Success(s)
  {
  }

  /** The ranges of the attribute table. */
  const ImplVersionRange := AttrRange(0, 0xFFFF_FFFF)
  const ManfIdRange := AttrRange(0, 0x3FFF)
  const IntfNumRange := AttrRange(0, 0xFFFF)
  const DataBitsRange := AttrRange(5, 8)

  /** The other ranges of the table accept their ends and reject one past them. */
  lemma TableRangesScenario()
    ensures ImplVersionRange.ToString(0).Success? && ImplVersionRange.ToString(0xFFFF_FFFF).Success?
    ensures ImplVersionRange.ToString(-1) == Failure(IndexError)
    ensures ImplVersionRange.ToString(0x1_0000_0000) == Failure(IndexError)
    ensures ManfIdRange.ToString(0).Success? && ManfIdRange.ToString(0x3FFF).Success?
    ensures ManfIdRange.ToString(-1) == Failure(IndexError) && ManfIdRange.ToString(0x4000) == Failure(IndexError)
    ensures IntfNumRange.ToString(0).Success? && IntfNumRange.ToString(0xFFFF).Success?
    ensures IntfNumRange.ToString(-1) == Failure(IndexError) && IntfNumRange.ToString(0x1_0000) == Failure(IndexError)
  {
  }

  /** The data bits range accepts 5 to 8 and rejects 4 and 9 with IndexError. */
  lemma DataBitsScenario()
    ensures forall v :: 5 <= v <= 8 ==> DataBitsRange.ToString(v).Success?
    ensures DataBitsRange.ToString(5) == Success("5") && DataBitsRange.ToString(8) == Success("8")
    ensures DataBitsRange.ToString(4) == Failure(IndexError)
    ensures DataBitsRange.ToString(9) == Failure(IndexError)
    ensures DataBitsRange.FromString("9") == Success(9)
  {
    assert Decimal.Str(5) == "5";
    assert Decimal.Str(8) == "8";
    assert Decimal.DigitsValue("9") == 9 by {
      assert "9"[..0] == [];
    }
  }

  // ---------------------------------------------------------------------------
  // _AttrSet

  /** `valuedict` as the constructor leaves it: `valuedict[n] = constants[n]` for each name in turn. */
  function ValueDictOf(names: seq<string>, constants: map<string, int>): map<string, int>
    requires Resolved(names, constants)
  {
    Rekey(names, Identity(names), constants)
  }

  /** `namedict` as the constructor leaves it: `namedict[constants[n]] = n` for each name in turn. */
  function NameDictOf(names: seq<string>, constants: map<string, int>): map<int, string>
    requires Resolved(names, constants)
  {
    Rekey(names, constants, Identity(names))
  }

  /** Each name mapped to itself. */
  function Identity(names: seq<string>): (m: map<string, string>)
    ensures forall n :: n in m <==> n in names
    ensures forall n :: n in m ==> m[n] == n
  {
    map n | n in names :: n
  }

  /** A name/value table for an enumerated attribute. */
  class AttrSet {
    var nameSet: seq<string>
    var nameDict: map<int, string>
    var valueDict: map<string, int>

    /** The dictionaries are what construction from `nameSet` and `constants` builds. */
    ghost predicate BuiltFrom(constants: map<string, int>)
      reads this
    {
      Resolved(nameSet, constants) &&
      valueDict == ValueDictOf(nameSet, constants) &&
      nameDict == NameDictOf(nameSet, constants)
    }

    /** The fields before the constructor's loop: the names and two empty dictionaries. */
    constructor (args: seq<string>)
      ensures nameSet == args && nameDict == map[] && valueDict == map[]
    {
      nameSet := args;
      nameDict := map[];
      valueDict := map[];
    }

    /**
     * `_AttrSet(*args)`: looks up each name in turn, filling both dictionaries, and
     * raises KeyError at the first name that is not a constant.
     */
    static method New(args: seq<string>, constants: map<string, int>) returns (r: Result<AttrSet, Error>)
      ensures r.Failure? <==> !Resolved(args, constants)
      ensures r.Failure? ==> r.error == KeyError(args[FirstMissing(args, constants)])
      ensures r.Success? ==> fresh(r.value) && r.value.nameSet == args && r.value.BuiltFrom(constants)
    {
      var s := new AttrSet(args);
      var i := 0;
      while i < |args|
        invariant 0 <= i <= |args|
        invariant s.nameSet == args
        invariant ResolvedUpTo(args, i, constants, Identity(args))
        invariant ResolvedUpTo(args, i, Identity(args), constants)
        invariant s.valueDict == RekeyUpTo(args, i, Identity(args), constants)
        invariant s.nameDict == RekeyUpTo(args, i, constants, Identity(args))
      {
        var name := args[i];
        if name !in constants {
          FirstMissingAt(args, constants, i);
          return Failure(KeyError(name));
        }
        var value := constants[name];
        s.nameDict := s.nameDict[value := name];
        s.valueDict := s.valueDict[name := value];
        i := i + 1;
      }
      ResolvedAll(args, constants);
      return Success(s);
    }

    /** `item in attrset`: membership among the names, not the values. */
    predicate Contains(item: string)
      reads this
      ensures Contains(item) <==> exists j :: 0 <= j < |nameSet| && nameSet[j] == item
    {
      item in nameSet
    }

    /** `tostring`: the name stored for `value`, or None; never raises. */
    function ToString(value: int): (r: Option<string>)
      reads this
      ensures r.None? <==> value !in nameDict
      ensures r.Some? ==> r.value == nameDict[value]
    {
      if value in nameDict then Some(nameDict[value]) else None
    }

    /** `fromstring`: the value stored for `name`, or None; never raises. */
    function FromString(name: string): (r: Option<int>)
      reads this
      ensures r.None? <==> name !in valueDict
      ensures r.Some? ==> r.value == valueDict[name]
    {
      if name in valueDict then Some(valueDict[name]) else None
    }

    /** `attrset[key]` is `tostring(key)`. */
    function GetItem(key: int): (r: Option<string>)
      reads this
      ensures r == ToString(key)
    {
      ToString(key)
    }
  }

  /** `fromstring` gives a name's constant exactly for the constructor's names, as `in` says. */
  lemma FromStringMeaning(s: AttrSet, constants: map<string, int>, name: string)
    requires s.BuiltFrom(constants)
    ensures s.FromString(name) == if name in s.nameSet then Some(constants[name]) else None
    ensures s.Contains(name) <==> s.FromString(name).Some?
  {
    var ids := Identity(s.nameSet);
    RekeyAt(s.nameSet, ids, constants, name);
    if name in s.nameSet {
      RekeyInjective(s.nameSet, ids, constants, name);
    }
  }

  /**
   * `tostring` finds a name exactly for the values some name resolves to, and then gives
   * the last such name in construction order.
   */
  lemma ToStringMeaning(s: AttrSet, constants: map<string, int>, value: int)
    requires s.BuiltFrom(constants)
    ensures s.ToString(value).Some? <==> exists j :: 0 <= j < |s.nameSet| && constants[s.nameSet[j]] == value
    ensures s.ToString(value).Some? ==>
      exists j :: IsLastWithCode(s.nameSet, |s.nameSet|, constants, j, value) && s.ToString(value).value == s.nameSet[j]
  {
    RekeyAt(s.nameSet, constants, Identity(s.nameSet), value);
  }

  /** The key sets of the two dictionaries: the names, and the image of the names. */
  lemma AttrSetKeys(s: AttrSet, constants: map<string, int>)
    requires s.BuiltFrom(constants)
    ensures s.valueDict.Keys == set n | n in s.nameSet
    ensures forall n :: n in s.valueDict ==> s.valueDict[n] == constants[n]
    ensures forall v :: v in s.nameDict <==> exists n :: n in s.nameSet && constants[n] == v
    ensures forall v :: v in s.nameDict ==> s.nameDict[v] in s.nameSet && constants[s.nameDict[v]] == v
  {
    forall n ensures n in s.valueDict <==> n in s.nameSet
      ensures n in s.valueDict ==> s.valueDict[n] == constants[n]
    {
      FromStringMeaning(s, constants, n);
    }
    forall v ensures v in s.nameDict <==> exists n :: n in s.nameSet && constants[n] == v {
      ToStringMeaning(s, constants, v);
      if v in s.nameDict {
        var j :| 0 <= j < |s.nameSet| && constants[s.nameSet[j]] == v;
        assert s.nameSet[j] in s.nameSet;
      }
    }
    forall v | v in s.nameDict ensures s.nameDict[v] in s.nameSet && constants[s.nameDict[v]] == v {
      ToStringMeaning(s, constants, v);
    }
  }

  /** Idempotent round trip: `fromstring(tostring(fromstring(n))) == fromstring(n)`. */
  lemma AttrSetRoundTrip(s: AttrSet, constants: map<string, int>, name: string)
    requires s.BuiltFrom(constants)
    ensures s.FromString(name).Some? ==>
      var t := s.ToString(s.FromString(name).value);
      t.Some? && s.FromString(t.value) == s.FromString(name)
  {
    FromStringMeaning(s, constants, name);
    if name in s.nameSet {
      ToStringMeaning(s, constants, constants[name]);
      var j :| IsLastWithCode(s.nameSet, |s.nameSet|, constants, j, constants[name]) && s.ToString(constants[name]).value == s.nameSet[j];
      FromStringMeaning(s, constants, s.nameSet[j]);
    }
  }

  /** When no two names share a constant, `tostring(fromstring(n)) == n`. */
  lemma AttrSetInjectiveRoundTrip(s: AttrSet, constants: map<string, int>, name: string)
    requires s.BuiltFrom(constants)
    requires forall a, b :: a in s.nameSet && b in s.nameSet && a != b ==> constants[a] != constants[b]
    requires name in s.nameSet
    ensures s.FromString(name) == Some(constants[name]) && s.ToString(constants[name]) == Some(name)
  {
    RekeyInjective(s.nameSet, constants, Identity(s.nameSet), name);
    FromStringMeaning(s, constants, name);
  }

  /** A table built from "A", "B", "C" resolving to 1, 2, 3. */
  lemma AttrSetScenario(s: AttrSet)
    requires s.nameSet == ["A", "B", "C"] && s.BuiltFrom(map["A" := 1, "B" := 2, "C" := 3])
    ensures s.ToString(2) == Some("B") && s.FromString("B") == Some(2)
    ensures s.ToString(99) == None && s.FromString("D") == None
    ensures s.Contains("C") && !s.Contains("D")
  {
    var c := map["A" := 1, "B" := 2, "C" := 3];
    AttrSetInjectiveRoundTrip(s, c, "B");
    ToStringMeaning(s, c, 99);
    FromStringMeaning(s, c, "D");
  }

  // ---------------------------------------------------------------------------
  // viAttrInfo and the catalog build

  datatype Access = ReadOnly | ReadWrite    // viRO, viRW
  datatype Scope = Global | Local           // viGlobal, viLocal

  /** The datatype tags of `vpp43_types` that the table uses; their meaning is not modelled. */
  datatype ViType = ViVersion | ViAccessMode | ViUInt8 | ViUInt16 | ViUInt32 | ViInt16 | ViString | ViRsrc

  /** The `values` field: a range, an enumeration, or None. */
  datatype Values = NoValues | RangeValues(range: AttrRange) | SetValues(enum: AttrSet)

  /** One attribute's description. */
  class AttrInfo {
    var access: Access
    var scope: Scope
    var dataType: ViType
    var values: Values
    var description: string
    var attributeName: Option<string>
    var attributeValue: Option<int>

    /** `viAttrInfo(...)`: `shortdesc` is accepted and dropped. */
    constructor (access: Access, scope: Scope, dataType: ViType, values: Values, shortdesc: string,
                 description: string, attribute: Option<int> := None, name: Option<string> := None)
      ensures this.access == access && this.scope == scope && this.dataType == dataType
      ensures this.values == values && this.description == description
      ensures attributeName == name && attributeValue == attribute
    {
      this.access := access;
      this.scope := scope;
      this.dataType := dataType;
      this.values := values;
      this.description := description;
      attributeName := name;
      attributeValue := attribute;
    }
  }

  /** `order` lists the keys of a dictionary, each once: an iteration order of it. */
  predicate IsIterationOrder<V>(order: seq<string>, d: map<string, V>) {
    (forall i, j :: 0 <= i < j < |order| ==> order[i] != order[j]) &&
    (forall n :: n in order ==> n in d) && (forall n :: n in d ==> n in order)
  }

  /** No record is shared by two names, as in the table, where each entry is built afresh. */
  predicate DistinctRecords(d: map<string, AttrInfo>) {
    forall a, b :: a in d && b in d && a != b ==> d[a] != d[b]
  }

  /** The record carries the name and code the build step gave it. */
  predicate Stamped(info: AttrInfo, name: string, code: int)
    reads info
  {
    info.attributeName == Some(name) && info.attributeValue == Some(code)
  }

  /** The record's name and code fields are what they were in `old`. */
  twostate predicate Unstamped(info: AttrInfo)
    reads info
  {
    info.attributeName == old(info.attributeName) && info.attributeValue == old(info.attributeValue)
  }

  /**
   * The module-level build loop: for each name of `attributesS` in iteration order, look up
   * its code (KeyError if missing), stamp the record with the name and code, and store it
   * under the code. Only the two stamped fields of the records change.
   */
  method BuildAttributes(attributesS: map<string, AttrInfo>, order: seq<string>, constants: map<string, int>)
    returns (r: Result<map<int, AttrInfo>, Error>)
    requires IsIterationOrder(order, attributesS) && DistinctRecords(attributesS)
    modifies attributesS.Values`attributeName, attributesS.Values`attributeValue
    ensures r.Failure? <==> !Resolved(order, constants)
    ensures r.Failure? ==>
      var k := FirstMissing(order, constants);
      r.error == KeyError(order[k]) &&
      forall j :: 0 <= j < |order| ==>
        if j < k then Stamped(attributesS[order[j]], order[j], constants[order[j]]) else Unstamped(attributesS[order[j]])
    ensures r.Success? ==>
      r.value == Rekey(order, constants, attributesS) &&
      forall n :: n in attributesS ==> Stamped(attributesS[n], n, constants[n])
  {
    var attributes: map<int, AttrInfo> := map[];
    var i := 0;
    while i < |order|
      invariant 0 <= i <= |order|
      invariant ResolvedUpTo(order, i, constants, attributesS)
      invariant attributes == RekeyUpTo(order, i, constants, attributesS)
      invariant forall j :: 0 <= j < |order| ==>
        if j < i then Stamped(attributesS[order[j]], order[j], constants[order[j]]) else Unstamped(attributesS[order[j]])
    {
      NoOtherRecord(attributesS, order, i);
      var name := order[i];
      if name !in constants {
        FirstMissingAt(order, constants, i);
        return Failure(KeyError(name));
      }
      var value := constants[name];
      var info := attributesS[name];
      info.attributeName := Some(name);
      info.attributeValue := Some(value);
      attributes := attributes[value := info];
      i := i + 1;
    }
    ResolvedAll(order, constants);
    assert attributes == Rekey(order, constants, attributesS);
    StampedByName(attributesS, order, constants);
    return Success(attributes);
  }

  /** Stamping the record of `order[i]` leaves the records of the other positions alone. */
  lemma NoOtherRecord(attributesS: map<string, AttrInfo>, order: seq<string>, i: int)
    requires IsIterationOrder(order, attributesS) && DistinctRecords(attributesS)
    requires 0 <= i < |order|
    ensures forall j :: 0 <= j < |order| && j != i ==> attributesS[order[j]] != attributesS[order[i]]
  {
  }

  /**
   * The finished catalog: its keys are exactly the codes of the names, and the record under
   * each code carries that code and a name resolving to it. So no two keys share a record.
   */
  ghost predicate CatalogShape(catalog: map<int, AttrInfo>, attributesS: map<string, AttrInfo>, constants: map<string, int>)
    reads catalog.Values
  {
    (forall v :: v in catalog ==> exists n :: n in attributesS && n in constants && constants[n] == v) &&
    (forall n :: n in attributesS && n in constants ==> constants[n] in catalog) &&
    (forall v :: v in catalog ==>
      catalog[v].attributeValue == Some(v) && catalog[v].attributeName.Some? &&
      var n := catalog[v].attributeName.value; n in attributesS && n in constants && constants[n] == v)
  }

  /** Every record stamped, by position in the iteration order and so by name. */
  lemma StampedByName(attributesS: map<string, AttrInfo>, order: seq<string>, constants: map<string, int>)
    requires IsIterationOrder(order, attributesS) && Resolved(order, constants)
    requires forall j :: 0 <= j < |order| ==> Stamped(attributesS[order[j]], order[j], constants[order[j]])
    ensures forall n :: n in attributesS ==> Stamped(attributesS[n], n, constants[n])
  {
  }

  /** A successful build has the catalog's shape. */
  lemma CatalogShapeHolds(attributesS: map<string, AttrInfo>, order: seq<string>, constants: map<string, int>)
    requires IsIterationOrder(order, attributesS) && Resolved(order, constants)
    requires forall n :: n in attributesS ==> Stamped(attributesS[n], n, constants[n])
    ensures CatalogShape(Rekey(order, constants, attributesS), attributesS, constants)
  {
    var c := Rekey(order, constants, attributesS);
    forall v | v in c ensures exists n :: n in attributesS && n in constants && constants[n] == v {
      RekeyAt(order, constants, attributesS, v);
      var j :| 0 <= j < |order| && constants[order[j]] == v;
      assert order[j] in order;
    }
    forall n | n in attributesS && n in constants ensures constants[n] in c {
      RekeyAt(order, constants, attributesS, constants[n]);
      var j :| 0 <= j < |order| && order[j] == n;
    }
    forall v | v in c
      ensures c[v].attributeValue == Some(v) && c[v].attributeName.Some?
      ensures c[v].attributeName.value in attributesS && constants[c[v].attributeName.value] == v
    {
      RekeyAt(order, constants, attributesS, v);
      var j :| IsLastWithCode(order, |order|, constants, j, v) && c[v] == attributesS[order[j]];
      assert order[j] in order;
    }
  }

  /** Identifiers are unique: two codes of the catalog never share a record. */
  lemma CatalogUnique(catalog: map<int, AttrInfo>, attributesS: map<string, AttrInfo>, constants: map<string, int>, v: int, w: int)
    requires CatalogShape(catalog, attributesS, constants)
    requires v in catalog && w in catalog && v != w
    ensures catalog[v] != catalog[w]
  {
  }

  /** Without colliding codes, every record ends up under its own name's code. */
  lemma CatalogInjective(attributesS: map<string, AttrInfo>, order: seq<string>, constants: map<string, int>, name: string)
    requires IsIterationOrder(order, attributesS) && Resolved(order, constants)
    requires forall a, b :: a in attributesS && b in attributesS && a != b ==> constants[a] != constants[b]
    requires name in attributesS
    ensures constants[name] in Rekey(order, constants, attributesS)
    ensures Rekey(order, constants, attributesS)[constants[name]] == attributesS[name]
  {
    RekeyInjective(order, constants, attributesS, name);
  }

  /**
   * Last write wins: when two names share a code, the record of the one iterated first is
   * silently dropped from the catalog.
   */
  lemma CatalogCollisionDrops(attributesS: map<string, AttrInfo>, order: seq<string>, constants: map<string, int>, i: int, j: int)
    requires IsIterationOrder(order, attributesS) && DistinctRecords(attributesS) && Resolved(order, constants)
    requires 0 <= i < j < |order| && constants[order[i]] == constants[order[j]]
    ensures forall v :: v in Rekey(order, constants, attributesS) ==>
      Rekey(order, constants, attributesS)[v] != attributesS[order[i]]
  {
    RekeyCollisionDrops(order, constants, attributesS, i, j);
  }
}

# VISA attribute metadata, modelled in Dafny

This project models the helper types behind pyvisa's static table of VISA resource
attributes (`visa_attributes.py`):

- `_AttrRange`, an inclusive integer range. It tests membership, turns an in-range value
  into its decimal string (raising `IndexError` otherwise) and parses a string back with
  Python's `int()`.
- `_AttrSet`, a table of names and values for enumerated attributes. Its constructor looks
  each name up in the constants namespace and fills two dictionaries, `namedict`
  (value → name) and `valuedict` (name → value). A missing name raises `KeyError`.
  Lookups return `None` on a miss.
- `viAttrInfo`, the record that describes one attribute.
- The load-time loop that re-keys the name-keyed table `attributes_s` by the attributes'
  integer codes. The same loop writes each record's `attribute_name` and
  `attribute_value`.

Files:

- `Wrappers.dfy`: `Option` (Python's `None`) and `Result` (a value, or the exception raised).
- `Exceptions.dfy`: the three exceptions that can be raised: `IndexError`, `KeyError`, `ValueError`.
- `Decimal.dfy`: Python's `str(i)` and `int(s)` on integers. It proves both round trips:
  `int(str(i)) == i` for every integer, and `str(int(s)) == s` for every canonical string.
- `VisaAttributes.dfy`: the range (a datatype, since it never changes after construction)
  and the enum table (a class whose constructor loop fills its dictionaries). It also has
  the attribute record (a class, since the build step writes two of its fields) and the
  build step (a method with a loop).

The constants module is modelled as a parameter `constants: map<string, int>`. The
iteration order of `attributes_s.iteritems()` is modelled as a parameter
`order: seq<string>` that lists each key exactly once. `namedict` and the rebuilt catalog
are both filled by the same kind of loop, `for n in names: d[codes[n]] = vals[n]`. One
function, `RekeyUpTo`/`Rekey`, specifies both, and `valuedict` too, with the name itself
as its key. Its central lemma, `RekeyAt`, states what is stored at each key:

- a key is present exactly when some name has that code;
- the value stored is that of the LAST such name.

So a colliding code keeps the last record, as the source does.

Behaviour of the code worth knowing, each fact proved below:

- `namedict` and `valuedict` are inverses only when the constants are injective over the
  names; otherwise the last name with a value wins in `namedict` (`ToStringMeaning`,
  `AttrSetInjectiveRoundTrip`).
- Two names that resolve to the same code are not rejected: the later record silently
  overwrites the earlier one, which is then in the catalog under no code
  (`CatalogCollisionDrops`).
- On a `KeyError` no catalog is produced, but the records before the missing name have
  already been stamped in place (`BuildAttributes` says exactly which).
- Nothing checks `minimum <= maximum` for a range; its ends are members only under that
  condition (`RangeBounds`).

## Model

| member | source | states |
|---|---|---|
| Decimal.Str | visa_attributes.py:21 | `str(val)` gives a canonical decimal string: no leading zeros, and a "-" exactly for negative values |
| Decimal.Int | visa_attributes.py:26 | `int(strval)` succeeds exactly on an optional sign followed by digits, and raises ValueError otherwise |
| Decimal.NumeralScenario | visa_attributes.py:26 | non-canonical numerals such as "007", "+5" and "-0" parse to 7, 5 and 0, as Python's `int()` does; "" and "-" raise ValueError; padded " 5" and "5 " raise ValueError too, where Python returns 5 |
| Decimal.StrIntRoundTrip | visa_attributes.py:19-27 | `int(str(i)) == i` for every integer |
| Decimal.IntStrRoundTrip | visa_attributes.py:19-27 | every canonical decimal string parses, and `str` of the result gives the same string back |
| VisaAttributes.AttrRange.Contains | visa_attributes.py:13-17 | `item in range` holds exactly when `minimum <= item <= maximum`; what that means at the ends is `RangeBounds` |
| VisaAttributes.AttrRange.ToString | visa_attributes.py:19-23 | succeeds exactly when `minimum <= val <= maximum`, and raises IndexError otherwise; the string is canonical and `fromstring` maps it back to `val` |
| VisaAttributes.AttrRange.FromString | visa_attributes.py:25-27 | ValueError exactly on non-numerals, with no range check; a canonical string is parsed to the number it spells |
| VisaAttributes.RangeBounds | visa_attributes.py:13-17 | `minimum` and `maximum` are members when `minimum <= maximum`; `minimum - 1` and `maximum + 1` never are |
| VisaAttributes.RangeRoundTrip | visa_attributes.py:19-27 | `fromstring(tostring(val)) == val` for every in-range value |
| VisaAttributes.RangeStringRoundTrip | visa_attributes.py:19-27 | a canonical string for an in-range value is what `tostring` produces for it |
| VisaAttributes.DataBitsScenario | visa_attributes.py:173-178 | the data-bits range `_AttrRange(5, 8)` converts each of 5..8 to its decimal string, raises IndexError for 4 and 9, and `fromstring("9")` still returns 9 |
| VisaAttributes.TableRangesScenario | visa_attributes.py:79-137 | the implementation-version, manufacturer-ID and interface-number ranges accept 0 and their maxima 0xFFFFFFFF, 0x3FFF and 0xFFFF, and raise IndexError for -1 and one past each maximum |
| VisaAttributes.FirstMissing | visa_attributes.py:36-37 | the KeyError is raised at the first name in order that is not a constant, and every name before it resolves |
| VisaAttributes.RekeyUpToAt | visa_attributes.py:36-39 | after any number of loop steps, a key is present exactly when one of the names processed so far has that code, and it holds the value of the last of them |
| VisaAttributes.RekeyAt | visa_attributes.py:296-300 | the same as `RekeyUpToAt`, for the whole loop |
| VisaAttributes.RekeyInjective | visa_attributes.py:36-39 | when no two names share a code, every name's value is stored under its own code |
| VisaAttributes.RekeyCollisionDrops | visa_attributes.py:296-300 | when an earlier and a later name share a code, and the values are distinct, the earlier value is stored under no key |
| VisaAttributes.AttrSet.constructor | visa_attributes.py:33-35 | `NameSet` is the arguments; both dictionaries start empty |
| VisaAttributes.AttrSet.New | visa_attributes.py:32-39 | `_AttrSet(*args)` raises KeyError exactly when some name is not a constant, naming the first one; otherwise both dictionaries are the ones the loop builds from the names and constants |
| VisaAttributes.AttrSet.Contains | visa_attributes.py:44-45 | `item in attrset` holds exactly when the item is one of the constructor's arguments (not one of the values); its agreement with `fromstring` is `FromStringMeaning` |
| VisaAttributes.AttrSet.ToString | visa_attributes.py:50-51 | returns None exactly when the value is not in `namedict`, and never raises |
| VisaAttributes.AttrSet.FromString | visa_attributes.py:53-54 | returns None exactly when the name is not in `valuedict`, and never raises |
| VisaAttributes.AttrSet.GetItem | visa_attributes.py:47-48 | `attrset[key]` is `tostring(key)` |
| VisaAttributes.FromStringMeaning | visa_attributes.py:44-54 | `fromstring(n)` is the constant of `n` when `n` is one of the names and None otherwise; `n in attrset` holds exactly when `fromstring(n)` is not None |
| VisaAttributes.ToStringMeaning | visa_attributes.py:36-51 | `tostring(v)` finds a name exactly when some name resolves to `v`, and returns the last such name in constructor order |
| VisaAttributes.AttrSetKeys | visa_attributes.py:36-39 | the keys of `valuedict` are exactly the names, each mapped to its constant; the keys of `namedict` are exactly the names' constants, each mapped to a name with that constant |
| VisaAttributes.AttrSetRoundTrip | visa_attributes.py:36-54 | `fromstring(tostring(fromstring(n))) == fromstring(n)` whenever `fromstring(n)` is not None |
| VisaAttributes.AttrSetInjectiveRoundTrip | visa_attributes.py:36-54 | when the constants are injective over the names, `tostring(fromstring(n)) == n` for every name |
| VisaAttributes.AttrSetScenario | visa_attributes.py:44-54 | a table of "A", "B", "C" resolving to 1, 2, 3 maps 2 to "B" and "B" to 2, gives None for 99 and "D", and contains "C" but not "D" |
| VisaAttributes.AttrInfo.constructor | visa_attributes.py:57-65 | stores access, scope, datatype, values and description; `shortdesc` is dropped; name and code default to None |
| VisaAttributes.BuildAttributes | visa_attributes.py:295-300 | KeyError exactly when a name is not a constant, naming the first such name in iteration order; the records before it are stamped and the rest are untouched. On success the catalog is the name table re-keyed by code, last write winning, and every record carries its own name and code. Only the two stamped fields change |
| VisaAttributes.StampedByName | visa_attributes.py:298-299 | stamping every position of the iteration order stamps every record of the table with its own name and code |
| VisaAttributes.CatalogShapeHolds | visa_attributes.py:295-300 | the keys of the finished catalog are exactly the codes of the table's names; the record under each code carries that code and a name that resolves to it |
| VisaAttributes.CatalogUnique | visa_attributes.py:295-300 | in the finished catalog, no two codes share a record, so each resolved identifier is unique |
| VisaAttributes.CatalogInjective | visa_attributes.py:296-300 | when no two names share a code, every record is stored under its own name's code |
| VisaAttributes.CatalogCollisionDrops | visa_attributes.py:296-300 | when two names share a code, the record of the one iterated first is in the catalog under no code |

## Left out

- The contents of `vpp43_constants` and `vpp43_types` are not part of this model. The constants are a `map<string, int>` parameter, and the datatype tags are an enumeration of the tags the table uses, with no meaning attached.
- The concrete table `attributes_s` (lines 75-292): only its four ranges are kept, as constants. The descriptions and `shortdesc` strings carry no behaviour.
- `_AttrSet.__repr__` and `viAttrInfo.__repr__` are debug output only. `_AttrSet.__repr__` reads an attribute `self.dict` that is never set, so it would raise AttributeError.
- The iteration order of `attributes_s.iteritems()` is a parameter. Every property is stated for any order, except which record wins on a colliding code.
- Decimal.Int: models `int()` only for ASCII digits with an optional sign. It rejects the surrounding whitespace, and the non-ASCII digits of unicode strings, that Python's `int()` accepts. Whether some attributes need long or floating-point values, as the source's comment at line 26 asks, is not modelled.
- Decimal.NumeralScenario: its padded cases `" 5"` and `"5 "` show the model's departure from Python, which parses both as 5; the model raises ValueError.
- VisaAttributes.AttrRange.FromString: inherits the restriction of `Decimal.Int`. Strings that Python's `int()` would also accept raise ValueError in the model.
- `_AttrSet` lookups accept any hashable key in Python. The model types names as strings and values as integers.
- VisaAttributes.BuildAttributes: requires the table's records to be pairwise distinct objects, as in the source, where every entry is a fresh `viAttrInfo(...)`.
- Module-level execution at import time is not modelled: the build step is a method called with the table, the order and the constants.

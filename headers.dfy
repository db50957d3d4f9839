/**
 * The header store shared by `_Response` (src/response.cpp), the template
 * `Response` (src/response.h) and `Request` (src/request.h): an ordered
 * collection of (key, value) entries whose `set`, `append` and `get` match
 * keys ignoring ASCII case, beside the dictionary's own exact-key
 * assignment `headers[key] = value`.
 */
module Headers {

  import opened Wrappers

  /** ASCII lower-casing, as `tolower` does in the C locale. */
  function Lower(c: char): char {
    if 'A' <= c <= 'Z' then (c as int + 32) as char else c
  }

  /** Arduino `String::equalsIgnoreCase`: same length, same characters after lower-casing. */
  predicate EqualsIgnoreCase(a: string, b: string) {
    |a| == |b| && forall i :: 0 <= i < |a| ==> Lower(a[i]) == Lower(b[i])
  }

  datatype Header = Header(key: string, value: string)

  type Store = seq<Header>

  /** `field.equalsIgnoreCase(key)`, the test in every lookup loop. */
  predicate Matches(h: Header, field: string) {
    EqualsIgnoreCase(field, h.key)
  }

  /** Position of the first entry whose key equals `field` ignoring case; `|h|` when there is none. */
  function IndexOf(h: Store, field: string): (k: nat)
    ensures k <= |h|
    ensures k < |h| ==> Matches(h[k], field)
    ensures forall j :: 0 <= j < k ==> !Matches(h[j], field)
  {
    if h == [] then 0
    else if Matches(h[0], field) then 0
    else 1 + IndexOf(h[1..], field)
  }

  /** `get(field)`: the value of the first case-insensitive match, or "" when there is none. */
  function Lookup(h: Store, field: string): string {
    var k := IndexOf(h, field);
    if k < |h| then h[k].value else ""
  }

  /** Position of the first entry whose key is exactly `key`; `|h|` when there is none. */
  function ExactIndex(h: Store, key: string): (k: nat)
    ensures k <= |h|
    ensures k < |h| ==> h[k].key == key
    ensures forall j :: 0 <= j < k ==> h[j].key != key
  {
    if h == [] then 0
    else if h[0].key == key then 0
    else 1 + ExactIndex(h[1..], key)
  }

  /** The value stored under exactly `key`, as the dictionary's `operator[]` reads it. */
  function ExactGet(h: Store, key: string): Option<string> {
    var k := ExactIndex(h, key);
    if k < |h| then Some(h[k].value) else None
  }

  /**
   * `headers[key] = value`: the dictionary's assignment. The dictionary
   * type is not part of this model; it is taken to compare keys exactly,
   * to update the entry it finds and to add a new entry at the end otherwise.
   */
  function Put(h: Store, key: string, value: string): Store {
    var k := ExactIndex(h, key);
    if k < |h| then h[k := Header(h[k].key, value)] else h + [Header(key, value)]
  }

  /**
   * `set(field, value)`. On a hit the matched entry takes the new value and
   * keeps its key. The source's loop binds `auto [key, header]`, a copy of
   * the entry, so writing through it reaches the store only if the
   * dictionary's iterator yields references; this model follows the
   * documented behaviour and assumes that it does.
   */
  function Set(h: Store, field: string, value: string): Store {
    var k := IndexOf(h, field);
    if k < |h| then h[k := Header(h[k].key, value)] else Put(h, field, value)
  }

  /** `append(field, value)`: concatenates onto the matched entry (same assumption as `Set`), else inserts. */
  function Append(h: Store, field: string, value: string): Store {
    var k := IndexOf(h, field);
    if k < |h| then h[k := Header(h[k].key, h[k].value + value)] else Put(h, field, value)
  }

  /** `set(key, header)` for each entry of `opts` in order (sendFile's copy of the option headers). */
  function SetAll(h: Store, opts: Store): Store
    decreases |opts|
  {
    if opts == [] then h else SetAll(Set(h, opts[0].key, opts[0].value), opts[1..])
  }

  /** No two entries have keys that are equal ignoring case. */
  predicate UniqueKeys(h: Store) {
    forall i, j :: 0 <= i < j < |h| ==> !EqualsIgnoreCase(h[i].key, h[j].key)
  }

  /** Entries are replaced by entries with the same keys, in the same order. */
  predicate SameKeys(a: Store, b: Store) {
    |a| == |b| && forall i :: 0 <= i < |a| ==> a[i].key == b[i].key
  }

  // ---------------------------------------------------------------------
  // The search loop shared by every `set`, `append` and `get`.

  /** The `for (auto [key, header] : headers) if (field.equalsIgnoreCase(key))` loop. */
  method FindIndex(h: Store, field: string) returns (k: nat)
    ensures k == IndexOf(h, field)
  {
    k := 0;
    while k < |h| && !Matches(h[k], field)
      invariant k <= |h|
      invariant forall j :: 0 <= j < k ==> !Matches(h[j], field)
    {
      k := k + 1;
    }
  }

  // ---------------------------------------------------------------------
  // Properties of case-insensitive matching.

  lemma EqualsIgnoreCaseSymmetric(a: string, b: string)
    requires EqualsIgnoreCase(a, b)
    ensures EqualsIgnoreCase(b, a)
  {
  }

  /** Two fields equal ignoring case find the same entry. */
  lemma {:induction false} IndexOfCongruent(h: Store, f: string, g: string)
    requires EqualsIgnoreCase(f, g)
    ensures IndexOf(h, f) == IndexOf(h, g)
  {
    if h != [] {
      IndexOfCongruent(h[1..], f, g);
    }
  }

  /** Replacing values without touching keys leaves every search result unchanged. */
  lemma {:induction false} IndexOfSameKeys(a: Store, b: Store, f: string)
    requires SameKeys(a, b)
    ensures IndexOf(a, f) == IndexOf(b, f)
  {
    if a != [] {
      IndexOfSameKeys(a[1..], b[1..], f);
    }
  }

  /** Appending an entry leaves earlier hits where they were. */
  lemma {:induction false} IndexOfSnoc(h: Store, e: Header, f: string)
    ensures IndexOf(h, f) < |h| ==> IndexOf(h + [e], f) == IndexOf(h, f)
    ensures IndexOf(h, f) == |h| ==> IndexOf(h + [e], f) == if Matches(e, f) then |h| else |h| + 1
  {
    if h != [] {
      assert (h + [e])[1..] == h[1..] + [e];
      IndexOfSnoc(h[1..], e, f);
    }
  }

  /** A miss ignoring case is also a miss for the exact key, so `Put` appends. */
  lemma PutAfterMiss(h: Store, field: string, value: string)
    requires IndexOf(h, field) == |h|
    ensures Put(h, field, value) == h + [Header(field, value)]
  {
    var k := ExactIndex(h, field);
    if k < |h| {
      assert Matches(h[k], field);
    }
  }

  // ---------------------------------------------------------------------
  // get

  /** `get` returns the value of the first entry whose key equals `field` ignoring case. */
  lemma LookupFirstMatch(h: Store, field: string, i: nat)
    requires i < |h| && Matches(h[i], field)
    requires forall j :: 0 <= j < i ==> !Matches(h[j], field)
    ensures Lookup(h, field) == h[i].value
  {
  }

  /** `get` returns "" when no key equals `field` ignoring case. */
  lemma LookupMiss(h: Store, field: string)
    requires forall j :: 0 <= j < |h| ==> !Matches(h[j], field)
    ensures Lookup(h, field) == ""
  {
  }

  // ---------------------------------------------------------------------
  // set

  /**
   * `set` changes the store in one of two ways: on a case-insensitive hit
   * only the value of the matched entry changes; on a miss exactly one
   * entry `(field, value)` is added at the end.
   */
  lemma SetShape(h: Store, field: string, value: string)
    ensures var k := IndexOf(h, field);
      if k < |h| then
        SameKeys(h, Set(h, field, value)) && Set(h, field, value)[k].value == value &&
        forall j :: 0 <= j < |h| && j != k ==> Set(h, field, value)[j] == h[j]
      else
        Set(h, field, value) == h + [Header(field, value)]
  {
    if IndexOf(h, field) == |h| {
      PutAfterMiss(h, field, value);
    }
  }

  /** After `set(f, v)`, `get(g)` returns `v` for every `g` equal to `f` ignoring case. */
  lemma SetThenGet(h: Store, f: string, g: string, v: string)
    requires EqualsIgnoreCase(f, g)
    ensures Lookup(Set(h, f, v), g) == v
  {
    var h' := Set(h, f, v);
    IndexOfCongruent(h, f, g);
    SetShape(h, f, v);
    if IndexOf(h, f) < |h| {
      IndexOfSameKeys(h, h', g);
    } else {
      IndexOfSnoc(h, Header(f, v), g);
      EqualsIgnoreCaseSymmetric(f, g);
      EqualsIgnoreCaseSymmetric(g, f);
    }
  }

  /** `set(f, v)` leaves what `get(g)` returns unchanged for every `g` not equal to `f` ignoring case. */
  lemma SetOther(h: Store, f: string, g: string, v: string)
    requires !EqualsIgnoreCase(f, g)
    ensures Lookup(Set(h, f, v), g) == Lookup(h, g)
  {
    var h' := Set(h, f, v);
    SetShape(h, f, v);
    var k := IndexOf(h, f);
    if k < |h| {
      IndexOfSameKeys(h, h', g);
    } else {
      IndexOfSnoc(h, Header(f, v), g);
      if Matches(Header(f, v), g) {
        EqualsIgnoreCaseSymmetric(g, f);
        assert false;
      }
    }
  }

  /** `set` keeps the store free of case-insensitive duplicates. */
  lemma SetKeepsUnique(h: Store, f: string, v: string)
    requires UniqueKeys(h)
    ensures UniqueKeys(Set(h, f, v))
  {
    SetShape(h, f, v);
    var h' := Set(h, f, v);
    if IndexOf(h, f) == |h| {
      forall i | 0 <= i < |h|
        ensures !EqualsIgnoreCase(h'[i].key, h'[|h|].key)
      {
        if EqualsIgnoreCase(h'[i].key, f) {
          EqualsIgnoreCaseSymmetric(h'[i].key, f);
        }
      }
    }
  }

  // ---------------------------------------------------------------------
  // append

  /** `append` changes at most the value of the matched entry, or adds one entry at the end. */
  lemma AppendShape(h: Store, field: string, value: string)
    ensures var k := IndexOf(h, field);
      if k < |h| then
        SameKeys(h, Append(h, field, value)) &&
        Append(h, field, value)[k].value == h[k].value + value &&
        forall j :: 0 <= j < |h| && j != k ==> Append(h, field, value)[j] == h[j]
      else
        Append(h, field, value) == h + [Header(field, value)]
  {
    if IndexOf(h, field) == |h| {
      PutAfterMiss(h, field, value);
    }
  }

  /** After `append(f, v)`, `get(g)` for `g` equal to `f` ignoring case returns the old value followed by `v` ("" + `v` on a miss). */
  lemma AppendThenGet(h: Store, f: string, g: string, v: string)
    requires EqualsIgnoreCase(f, g)
    ensures Lookup(Append(h, f, v), g) == Lookup(h, g) + v
  {
    var h' := Append(h, f, v);
    IndexOfCongruent(h, f, g);
    AppendShape(h, f, v);
    if IndexOf(h, f) < |h| {
      IndexOfSameKeys(h, h', g);
    } else {
      IndexOfSnoc(h, Header(f, v), g);
      EqualsIgnoreCaseSymmetric(f, g);
      EqualsIgnoreCaseSymmetric(g, f);
    }
  }

  /** Two appends on a name the store does not hold yield the two values concatenated. */
  lemma AppendTwice(h: Store, f: string, v1: string, v2: string)
    requires IndexOf(h, f) == |h|
    ensures Lookup(Append(Append(h, f, v1), f, v2), f) == v1 + v2
  {
    assert EqualsIgnoreCase(f, f);
    AppendThenGet(h, f, f, v1);
    AppendThenGet(Append(h, f, v1), f, f, v2);
  }

  /** As documented for `append`: a later `set` resets the value the appends built. */
  lemma SetAfterAppend(h: Store, f: string, v1: string, v2: string)
    ensures Lookup(Set(Append(h, f, v1), f, v2), f) == v2
  {
    assert EqualsIgnoreCase(f, f);
    SetThenGet(Append(h, f, v1), f, f, v2);
  }

  /** `append(f, v)` leaves what `get(g)` returns unchanged for every `g` not equal to `f` ignoring case. */
  lemma AppendOther(h: Store, f: string, g: string, v: string)
    requires !EqualsIgnoreCase(f, g)
    ensures Lookup(Append(h, f, v), g) == Lookup(h, g)
  {
    var h' := Append(h, f, v);
    AppendShape(h, f, v);
    var k := IndexOf(h, f);
    if k < |h| {
      IndexOfSameKeys(h, h', g);
    } else {
      IndexOfSnoc(h, Header(f, v), g);
      if Matches(Header(f, v), g) {
        EqualsIgnoreCaseSymmetric(g, f);
        assert false;
      }
    }
  }

  /** `append` keeps the store free of case-insensitive duplicates. */
  lemma AppendKeepsUnique(h: Store, f: string, v: string)
    requires UniqueKeys(h)
    ensures UniqueKeys(Append(h, f, v))
  {
    AppendShape(h, f, v);
    var h' := Append(h, f, v);
    if IndexOf(h, f) == |h| {
      forall i | 0 <= i < |h|
        ensures !EqualsIgnoreCase(h'[i].key, h'[|h|].key)
      {
        if EqualsIgnoreCase(h'[i].key, f) {
          EqualsIgnoreCaseSymmetric(h'[i].key, f);
        }
      }
    }
  }

  // ---------------------------------------------------------------------
  // the dictionary's exact-key assignment

  /** After `headers[k] = v` the entry stored under exactly `k` holds `v`; other exact keys keep their values. */
  lemma {:induction false} PutThenExactGet(h: Store, k: string, k': string, v: string)
    ensures ExactGet(Put(h, k, v), k) == Some(v)
    ensures k' != k ==> ExactGet(Put(h, k, v), k') == ExactGet(h, k')
  {
    var i := ExactIndex(h, k);
    var h' := Put(h, k, v);
    if i < |h| {
      ExactIndexSameKeys(h, h', k);
      ExactIndexSameKeys(h, h', k');
    } else {
      ExactIndexSnoc(h, Header(k, v), k);
      ExactIndexSnoc(h, Header(k, v), k');
    }
  }

  /** `headers[k] = v` keeps every existing entry's key and position, and adds at most one entry. */
  lemma PutShape(h: Store, k: string, v: string)
    ensures |h| <= |Put(h, k, v)| <= |h| + 1
    ensures forall i :: 0 <= i < |h| ==> Put(h, k, v)[i].key == h[i].key
  {
  }

  /**
   * On a store without case-insensitive duplicates, `headers[k] = v` keeps
   * it so exactly when `k` is stored under its own spelling or under no
   * spelling at all: when only another spelling is stored, a second entry
   * for the same name is added.
   */
  lemma PutKeepsUnique(h: Store, k: string, v: string)
    requires UniqueKeys(h)
    ensures UniqueKeys(Put(h, k, v)) <==> ExactIndex(h, k) < |h| || IndexOf(h, k) == |h|
  {
    var h' := Put(h, k, v);
    if ExactIndex(h, k) == |h| {
      assert h' == h + [Header(k, v)];
      if IndexOf(h, k) == |h| {
        forall i | 0 <= i < |h|
          ensures !EqualsIgnoreCase(h'[i].key, h'[|h|].key)
        {
          if EqualsIgnoreCase(h'[i].key, k) {
            EqualsIgnoreCaseSymmetric(h'[i].key, k);
          }
        }
      } else {
        var j := IndexOf(h, k);
        EqualsIgnoreCaseSymmetric(k, h[j].key);
        assert EqualsIgnoreCase(h'[j].key, h'[|h|].key);
      }
    }
  }

  lemma {:induction false} ExactIndexSameKeys(a: Store, b: Store, k: string)
    requires SameKeys(a, b)
    ensures ExactIndex(a, k) == ExactIndex(b, k)
  {
    if a != [] {
      ExactIndexSameKeys(a[1..], b[1..], k);
    }
  }

  lemma {:induction false} ExactIndexSnoc(h: Store, e: Header, k: string)
    ensures ExactIndex(h, k) < |h| ==> ExactIndex(h + [e], k) == ExactIndex(h, k)
    ensures ExactIndex(h, k) == |h| ==> ExactIndex(h + [e], k) == if e.key == k then |h| else |h| + 1
  {
    if h != [] {
      assert (h + [e])[1..] == h[1..] + [e];
      ExactIndexSnoc(h[1..], e, k);
    }
  }

  // ---------------------------------------------------------------------
  // sendFile's copy of the option headers

  /** The value of the last entry of `opts` whose key equals `g` ignoring case, if any. */
  function LastMatch(opts: Store, g: string): Option<string>
    decreases |opts|
  {
    if opts == [] then None
    else
      var rest := LastMatch(opts[1..], g);
      if rest.Some? then rest
      else if EqualsIgnoreCase(opts[0].key, g) then Some(opts[0].value)
      else None
  }

  /**
   * After `set` has been called for every option header in order, `get(g)`
   * returns the value of the last option header matching `g`, and what it
   * returned before when no option header matches.
   */
  lemma {:induction false} SetAllThenGet(h: Store, opts: Store, g: string)
    decreases |opts|
    ensures Lookup(SetAll(h, opts), g) ==
      match LastMatch(opts, g)
      case Some(v) => v
      case None => Lookup(h, g)
  {
    if opts != [] {
      var h1 := Set(h, opts[0].key, opts[0].value);
      SetAllThenGet(h1, opts[1..], g);
      if EqualsIgnoreCase(opts[0].key, g) {
        SetThenGet(h, opts[0].key, g, opts[0].value);
      } else {
        SetOther(h, opts[0].key, g, opts[0].value);
      }
    }
  }
}

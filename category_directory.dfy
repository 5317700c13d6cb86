/** The category directory: the category names of a month tab, read from its
    header row, and the category-name to column-index map recordExpense builds
    from the same row. Column 0 holds the day label and is never a category. */
module CategoryDirectory {
  import opened Text

  /** The non-empty strings of s, in order. */
  function NonBlank(s: seq<string>): (r: seq<string>)
    ensures |r| <= |s|
    ensures forall i :: 0 <= i < |r| ==> r[i] != ""
  {
    if s == [] then []
    else
      var init := NonBlank(s[..|s| - 1]);
      if s[|s| - 1] == "" then init else init + [s[|s| - 1]]
  }

  /** getCategories: headerValues.slice(1).filter(Boolean). */
  function CategoryNames(headers: seq<string>): seq<string>
  {
    if |headers| <= 1 then [] else NonBlank(headers[1..])
  }

  /** A header names a category exactly when it is a non-empty cell after the first. */
  lemma {:induction false} NonBlankMembers(s: seq<string>, x: string)
    ensures x in NonBlank(s) <==> x != "" && x in s
  {
    if s != [] {
      NonBlankMembers(s[..|s| - 1], x);
      assert s == s[..|s| - 1] + [s[|s| - 1]];
    }
  }

  /** Filtering keeps the order: the categories of two runs of headers are the
      categories of the first run followed by those of the second. */
  lemma {:induction false} NonBlankAppend(a: seq<string>, b: seq<string>)
    ensures NonBlank(a + b) == NonBlank(a) + NonBlank(b)
  {
    if b != [] {
      var init := b[..|b| - 1];
      var x := b[|b| - 1];
      NonBlankAppend(a, init);
      assert (a + b)[..|a + b| - 1] == a + init;
      assert (a + b)[|a + b| - 1] == x;
    } else {
      assert a + b == a;
    }
  }

  lemma CategoryNamesMembers(headers: seq<string>, x: string)
    ensures x in CategoryNames(headers) <==>
      x != "" && exists i :: 1 <= i < |headers| && headers[i] == x
  {
    if |headers| > 1 {
      NonBlankMembers(headers[1..], x);
      if x in headers[1..] {
        var j :| 0 <= j < |headers| - 1 && headers[1..][j] == x;
        assert headers[j + 1] == x;
      }
      if exists i :: 1 <= i < |headers| && headers[i] == x {
        var i :| 1 <= i < |headers| && headers[i] == x;
        assert headers[1..][i - 1] == x;
      }
    }
  }

  /** A header that the assignment categoryMap[h] = i stores as a key of a plain
      object: a falsy (empty) header is skipped, and "__proto__" sets the
      object's prototype, which ignores a number, instead of adding a key. */
  predicate Keyable(h: string)
  {
    h != "" && h != "__proto__"
  }

  /** The category map after the loop over header indices 1 .. n-1: a keyable
      header maps to its index, a later column overwriting an earlier one. */
  function MapUpTo(headers: seq<string>, n: nat): map<string, int>
    requires n <= |headers|
  {
    if n <= 1 then map[]
    else
      var m := MapUpTo(headers, n - 1);
      if Keyable(headers[n - 1]) then m[headers[n - 1] := n - 1] else m
  }

  /** The order Object.keys lists those keys in: first insertion. */
  function KeysUpTo(headers: seq<string>, n: nat): seq<string>
    requires n <= |headers|
  {
    if n <= 1 then []
    else
      var keys := KeysUpTo(headers, n - 1);
      var h := headers[n - 1];
      if Keyable(h) && h !in MapUpTo(headers, n - 1) then keys + [h] else keys
  }

  function CategoryMap(headers: seq<string>): map<string, int>
  {
    MapUpTo(headers, |headers|)
  }

  function CategoryKeys(headers: seq<string>): seq<string>
  {
    KeysUpTo(headers, |headers|)
  }

  /** The keys are the keyable headers after column 0; each maps to the LAST
      column carrying that header, which is at least 1. */
  lemma {:induction false} MapUpToSpec(headers: seq<string>, n: nat, k: string)
    requires n <= |headers|
    ensures k in MapUpTo(headers, n) <==> Keyable(k) && exists i :: 1 <= i < n && headers[i] == k
    ensures k in MapUpTo(headers, n) ==>
      var c := MapUpTo(headers, n)[k];
      && 1 <= c < n && headers[c] == k
      && forall j :: c < j < n ==> headers[j] != k
  {
    if n > 1 {
      MapUpToSpec(headers, n - 1, k);
    }
  }

  /** The key list holds each key of the map exactly once. */
  lemma {:induction false} KeysUpToSpec(headers: seq<string>, n: nat)
    requires n <= |headers|
    ensures var keys := KeysUpTo(headers, n);
      && (forall k :: k in keys <==> k in MapUpTo(headers, n))
      && (forall i, j :: 0 <= i < j < |keys| ==> keys[i] != keys[j])
  {
    if n > 1 {
      KeysUpToSpec(headers, n - 1);
    }
  }

  lemma CategoryMapSpec(headers: seq<string>, k: string)
    ensures k in CategoryMap(headers) <==>
      Keyable(k) && exists i :: 1 <= i < |headers| && headers[i] == k
    ensures k in CategoryMap(headers) ==>
      var c := CategoryMap(headers)[k];
      && 1 <= c < |headers| && headers[c] == k
      && forall j :: c < j < |headers| ==> headers[j] != k
  {
    MapUpToSpec(headers, |headers|, k);
  }

  /** The category map and the category list name the same categories, except
      a header "__proto__", which only the list carries. */
  lemma MapAgreesWithNames(headers: seq<string>, k: string)
    ensures k in CategoryMap(headers) <==> k in CategoryNames(headers) && k != "__proto__"
  {
    CategoryMapSpec(headers, k);
    CategoryNamesMembers(headers, k);
  }

  /** The loop of recordExpense that builds categoryMap, with the insertion order
      of its keys. */
  method BuildCategoryMap(headers: seq<string>) returns (categoryMap: map<string, int>, keys: seq<string>)
    ensures categoryMap == CategoryMap(headers)
    ensures keys == CategoryKeys(headers)
  {
    categoryMap, keys := map[], [];
    var i := 1;
    while i < |headers|
      invariant 1 <= i && (|headers| >= 1 ==> i <= |headers|)
      invariant categoryMap == MapUpTo(headers, if |headers| == 0 then 0 else i)
      invariant keys == KeysUpTo(headers, if |headers| == 0 then 0 else i)
    {
      var h := headers[i];
      if Keyable(h) {
        if h !in categoryMap {
          keys := keys + [h];
        }
        categoryMap := categoryMap[h := i];
      }
      i := i + 1;
    }
  }

  /** What categoryMap[category] yields on a plain JavaScript object: an own key
      gives its column; a name of Object.prototype gives the inherited member;
      anything else is undefined. */
  datatype Lookup = Own(column: int) | Inherited(name: string) | Undefined

  /** The property names every plain object inherits from Object.prototype. */
  const ObjectPrototypeNames: set<string> := {
    "constructor", "hasOwnProperty", "isPrototypeOf", "propertyIsEnumerable",
    "toString", "toLocaleString", "valueOf", "__proto__",
    "__defineGetter__", "__defineSetter__", "__lookupGetter__", "__lookupSetter__"
  }

  /** categoryMap[category] as written: the lookup also sees inherited names. */
  function LookupAsWritten(categoryMap: map<string, int>, category: string): (r: Lookup)
    ensures r.Own? <==> category in categoryMap
    ensures r == Undefined <==> category !in categoryMap && category !in ObjectPrototypeNames
  {
    if category in categoryMap then Own(categoryMap[category])
    else if category in ObjectPrototypeNames then Inherited(category)
    else Undefined
  }

  /** The as-written guard `colIndex === undefined` lets an inherited name through:
      on a tab with no "toString" column, category "toString" is not reported as
      unknown, although no column carries it. */
  lemma InheritedNameSlipsThrough(headers: seq<string>)
    requires forall i :: 0 <= i < |headers| ==> headers[i] != "toString"
    ensures "toString" !in CategoryMap(headers)
    ensures LookupAsWritten(CategoryMap(headers), "toString") != Undefined
  {
    CategoryMapSpec(headers, "toString");
  }

  /** The lookup as intended: own keys only. */
  function ColumnOf(categoryMap: map<string, int>, category: string): (col: Option<int>)
    ensures col.Some? <==> category in categoryMap
    ensures col.Some? ==> col.value == categoryMap[category]
  {
    if category in categoryMap then Some(categoryMap[category]) else None
  }

  /** With own-key lookup, a category resolves exactly when some header after
      column 0 carries it (and it is keyable), and then to the last such column. */
  lemma ColumnOfResolvesExactlyHeaders(headers: seq<string>, category: string)
    ensures var col := ColumnOf(CategoryMap(headers), category);
      && (col.Some? <==> Keyable(category) && exists i :: 1 <= i < |headers| && headers[i] == category)
      && (col.Some? ==> 1 <= col.value < |headers| && headers[col.value] == category
                        && forall j :: col.value < j < |headers| ==> headers[j] != category)
  {
    CategoryMapSpec(headers, category);
  }
}

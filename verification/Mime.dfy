/**
 The mime map: a table filled in any order with case-insensitive replacement,
 then sorted once and searched by bisection for the text after a URL's last dot.
 */
module Mime {
  import opened Bytes

  datatype Mapping = Mapping(extension: bytes, mimetype: bytes)

  /** Extensions are the same when they agree up to ASCII case. */
  function Key(m: Mapping): bytes { Lower(m.extension) }

  // ------------------------------------------------------------------ the order

  /** strcmp. */
  function Compare(x: bytes, y: bytes): int {
    if x == [] || y == [] then |x| - |y|
    else if x[0] != y[0] then x[0] - y[0]
    else Compare(x[1..], y[1..])
  }

  /** strcasecmp. */
  function CaseCompare(x: bytes, y: bytes): int {
    Compare(Lower(x), Lower(y))
  }

  lemma {:induction false} CompareOrder(x: bytes, y: bytes)
    ensures Compare(x, y) == 0 <==> x == y
    ensures Compare(x, y) < 0 <==> Compare(y, x) > 0
    decreases |x|
  {
    if x != [] && y != [] && x[0] == y[0] {
      CompareOrder(x[1..], y[1..]);
      assert x == [x[0]] + x[1..] && y == [y[0]] + y[1..];
    }
  }

  lemma {:induction false} CompareTransitive(x: bytes, y: bytes, z: bytes)
    requires Compare(x, y) <= 0 && Compare(y, z) <= 0
    ensures Compare(x, z) <= 0
    ensures Compare(x, y) < 0 || Compare(y, z) < 0 ==> Compare(x, z) < 0
    decreases |x|
  {
    if x != [] && y != [] && z != [] && x[0] == y[0] == z[0] {
      CompareTransitive(x[1..], y[1..], z[1..]);
    }
  }

  ghost predicate Sorted(table: seq<Mapping>) {
    forall i, j :: 0 <= i < j < |table| ==> Compare(Key(table[i]), Key(table[j])) <= 0
  }

  // --------------------------------------------------------------- the reference

  /** The type most recently given to an extension with this key. */
  function Latest(history: seq<Mapping>, key: bytes): Option<bytes> {
    if history == [] then None
    else
      var last := history[|history| - 1];
      if Key(last) == key then Some(last.mimetype) else Latest(history[..|history| - 1], key)
  }

  /** The text after the last dot. */
  function Extension(url: bytes): Option<bytes> {
    if url == [] then None
    else
      var n := |url| - 1;
      if url[n] == DOT then Some([])
      else match Extension(url[..n])
        case None => None
        case Some(ext) => Some(ext + [url[n]])
  }

  /** The content type by linear lookup, the last mapping winning. */
  function TypeOf(history: seq<Mapping>, fallback: bytes, url: bytes): bytes {
    match Extension(url)
    case None => fallback
    case Some(ext) =>
      match Latest(history, Lower(ext))
      case None => fallback
      case Some(mimetype) => mimetype
  }

  // ------------------------------------------------------------------- the table

  ghost predicate Distinct(table: seq<Mapping>) {
    forall i, j :: 0 <= i < j < |table| ==> Key(table[i]) != Key(table[j])
  }

  /** The table answers every key as the history does, whatever its order. */
  ghost predicate Indexes(table: seq<Mapping>, history: seq<Mapping>) {
    && Distinct(table)
    && (forall i :: 0 <= i < |table| ==> Latest(history, Key(table[i])) == Some(table[i].mimetype))
    && (forall h :: 0 <= h < |history| ==> HasKey(table, Key(history[h])))
  }

  ghost predicate HasKey(table: seq<Mapping>, key: bytes) {
    exists i :: 0 <= i < |table| && Key(table[i]) == key
  }

  lemma LatestAdd(history: seq<Mapping>, m: Mapping, key: bytes)
    ensures Latest(history + [m], key) == if Key(m) == key then Some(m.mimetype) else Latest(history, key)
  {
    assert (history + [m])[..|history|] == history;
  }

  lemma {:induction false} LatestFound(table: seq<Mapping>, history: seq<Mapping>, n: nat, key: bytes)
    requires n <= |history|
    requires forall h :: 0 <= h < n ==> HasKey(table, Key(history[h]))
    ensures Latest(history[..n], key).Some? ==> HasKey(table, key)
  {
    if n > 0 {
      assert history[..n][..n - 1] == history[..n - 1];
      LatestFound(table, history, n - 1, key);
    }
  }

  lemma KeepsKeys(old_: seq<Mapping>, table: seq<Mapping>, key: bytes)
    requires |old_| <= |table| && forall k :: 0 <= k < |old_| ==> Key(table[k]) == Key(old_[k])
    requires HasKey(old_, key)
    ensures HasKey(table, key)
  {
    var i :| 0 <= i < |old_| && Key(old_[i]) == key;
    assert Key(table[i]) == key;
  }

  lemma IndexesReplace(table: seq<Mapping>, history: seq<Mapping>, i: nat, m: Mapping)
    requires Indexes(table, history) && i < |table| && Key(table[i]) == Key(m)
    ensures Indexes(table[i := table[i].(mimetype := m.mimetype)], history + [m])
  {
    var table' := table[i := table[i].(mimetype := m.mimetype)];
    assert forall k :: 0 <= k < |table| ==> Key(table'[k]) == Key(table[k]);
    forall k | 0 <= k < |table|
      ensures Latest(history + [m], Key(table'[k])) == Some(table'[k].mimetype)
    {
      LatestAdd(history, m, Key(table[k]));
    }
    forall h | 0 <= h < |history + [m]|
      ensures HasKey(table', Key((history + [m])[h]))
    {
      if h < |history| {
        KeepsKeys(table, table', Key(history[h]));
      } else {
        assert Key(table'[i]) == Key(m);
      }
    }
  }

  lemma IndexesAppend(table: seq<Mapping>, history: seq<Mapping>, m: Mapping)
    requires Indexes(table, history) && !HasKey(table, Key(m))
    ensures Indexes(table + [m], history + [m])
  {
    var table' := table + [m];
    forall k | 0 <= k < |table'|
      ensures Latest(history + [m], Key(table'[k])) == Some(table'[k].mimetype)
    {
      LatestAdd(history, m, Key(table'[k]));
    }
    forall h | 0 <= h < |history + [m]|
      ensures HasKey(table', Key((history + [m])[h]))
    {
      if h < |history| {
        KeepsKeys(table, table', Key(history[h]));
      } else {
        assert Key(table'[|table|]) == Key(m);
      }
    }
  }

  // ---------------------------------------------------------------- permutations

  lemma MultisetSplit(s: seq<Mapping>, i: nat)
    requires i < |s|
    ensures multiset(s) == multiset(s[..i]) + multiset{s[i]} + multiset(s[i + 1..])
  {
    assert s == s[..i] + [s[i]] + s[i + 1..];
  }

  /** An entry that occurs twice makes the table ambiguous. */
  lemma DistinctMultiplicity(s: seq<Mapping>, i: nat)
    requires Distinct(s) && i < |s|
    ensures multiset(s)[s[i]] == 1
  {
    MultisetSplit(s, i);
    assert s[i] !in s[..i];
    assert s[i] !in s[i + 1..];
  }

  lemma PermutationIndexes(table: seq<Mapping>, sorted: seq<Mapping>, history: seq<Mapping>)
    requires Indexes(table, history) && multiset(sorted) == multiset(table)
    ensures Indexes(sorted, history)
  {
    forall x
      ensures x in sorted <==> x in table
    {
      assert x in sorted <==> x in multiset(sorted);
    }
    forall i, j | 0 <= i < j < |sorted|
      ensures Key(sorted[i]) != Key(sorted[j])
    {
      PermutationDistinct(table, sorted, i, j);
    }
    forall i | 0 <= i < |sorted|
      ensures Latest(history, Key(sorted[i])) == Some(sorted[i].mimetype)
    {
      assert sorted[i] in table;
    }
    forall h | 0 <= h < |history|
      ensures HasKey(sorted, Key(history[h]))
    {
      var i :| 0 <= i < |table| && Key(table[i]) == Key(history[h]);
      assert table[i] in sorted;
    }
  }

  lemma PermutationDistinct(table: seq<Mapping>, sorted: seq<Mapping>, i: nat, j: nat)
    requires Distinct(table) && multiset(sorted) == multiset(table) && i < j < |sorted|
    ensures Key(sorted[i]) != Key(sorted[j])
  {
    assert sorted[i] in multiset(sorted) && sorted[j] in multiset(sorted);
    assert sorted[i] in table && sorted[j] in table;
    var k :| 0 <= k < |table| && table[k] == sorted[i];
    var m :| 0 <= m < |table| && table[m] == sorted[j];
    DistinctMultiplicity(table, k);
    OccursOnce(sorted, i, j);
  }

  lemma OccursOnce(s: seq<Mapping>, i: nat, j: nat)
    requires i < j < |s| && multiset(s)[s[i]] == 1
    ensures s[i] != s[j]
  {
    MultisetSplit(s, j);
    assert s[i] == s[..j][i];
  }

  // ------------------------------------------------------------------- searching

  /** bsearch over a sorted table, comparing like mime_mapping_cmp_str. */
  method BSearch(table: seq<Mapping>, key: bytes) returns (found: Option<Mapping>)
    requires Sorted(table)
    ensures found.Some? ==> found.value in table && Key(found.value) == Lower(key)
    ensures found.None? ==> !HasKey(table, Lower(key))
  {
    var lo, hi := 0, |table|;
    while lo < hi
      invariant 0 <= lo <= hi <= |table|
      invariant forall k :: 0 <= k < lo ==> Compare(Key(table[k]), Lower(key)) < 0
      invariant forall k :: hi <= k < |table| ==> Compare(Key(table[k]), Lower(key)) > 0
    {
      var mid := (lo + hi) / 2;
      var c := CaseCompare(key, table[mid].extension);
      CompareOrder(Lower(key), Key(table[mid]));
      CompareOrder(Key(table[mid]), Key(table[mid]));
      if c < 0 {
        forall k | mid <= k < hi
          ensures Compare(Key(table[k]), Lower(key)) > 0
        {
          Above(Lower(key), Key(table[mid]), Key(table[k]));
        }
        hi := mid;
      } else if c > 0 {
        forall k | lo <= k <= mid
          ensures Compare(Key(table[k]), Lower(key)) < 0
        {
          CompareOrder(Key(table[mid]), Lower(key));
          Above(Key(table[k]), Key(table[mid]), Lower(key));
          CompareOrder(Key(table[k]), Lower(key));
          CompareOrder(Key(table[k]), Key(table[mid]));
        }
        lo := mid + 1;
      } else {
        return Some(table[mid]);
      }
    }
    forall k | 0 <= k < |table|
      ensures Key(table[k]) != Lower(key)
    {
      CompareOrder(Key(table[k]), Lower(key));
    }
    found := None;
  }

  lemma Above(x: bytes, y: bytes, z: bytes)
    requires Compare(x, y) <= 0 && Compare(y, z) <= 0
    requires Compare(x, y) < 0 || Compare(y, z) < 0
    ensures Compare(x, z) < 0 && Compare(z, x) > 0
  {
    CompareTransitive(x, y, z);
    CompareOrder(x, z);
  }

  // ------------------------------------------------------------ the sorted copy

  function Insert(m: Mapping, table: seq<Mapping>): (r: seq<Mapping>)
    ensures multiset(r) == multiset(table) + multiset{m}
    ensures |r| == |table| + 1
  {
    if table == [] then [m]
    else if CaseCompare(m.extension, table[0].extension) <= 0 then [m] + table
    else
      assert table == [table[0]] + table[1..];
      [table[0]] + Insert(m, table[1..])
  }

  lemma {:induction false} InsertSorted(m: Mapping, table: seq<Mapping>)
    requires Sorted(table)
    ensures Sorted(Insert(m, table))
  {
    CompareOrder(Key(m), Key(m));
    if table == [] {
    } else if CaseCompare(m.extension, table[0].extension) <= 0 {
      forall k | 0 <= k < |table|
        ensures Compare(Key(m), Key(table[k])) <= 0
      {
        if k > 0 {
          CompareTransitive(Key(m), Key(table[0]), Key(table[k]));
        }
      }
    } else {
      InsertSorted(m, table[1..]);
      var rest := Insert(m, table[1..]);
      CompareOrder(Key(m), Key(table[0]));
      CompareOrder(Key(table[0]), Key(m));
      forall x | x in rest
        ensures Compare(Key(table[0]), Key(x)) <= 0
      {
        assert x in multiset(rest);
        assert x == m || x in table[1..];
      }
    }
  }

  /** A sorted arrangement of the table always exists. */
  function Arrange(table: seq<Mapping>): (r: seq<Mapping>)
    ensures multiset(r) == multiset(table)
  {
    if table == [] then []
    else
      assert table == [table[0]] + table[1..];
      Insert(table[0], Arrange(table[1..]))
  }

  lemma {:induction false} ArrangeSorted(table: seq<Mapping>)
    ensures Sorted(Arrange(table))
  {
    if table != [] {
      ArrangeSorted(table[1..]);
      InsertSorted(table[0], Arrange(table[1..]));
    }
  }

  // ---------------------------------------------------------------- the globals

  /** The globals mime_map and longest_ext, with everything ever added to them. */
  class MimeMap {
    var table: seq<Mapping>
    var longestExt: nat
    const defaultMimetype: bytes
    ghost var history: seq<Mapping>

    ghost predicate Valid()
      reads this
    {
      && Indexes(table, history)
      && forall i :: 0 <= i < |table| ==> 0 < |table[i].extension| <= longestExt
    }

    constructor (defaultMimetype: bytes)
      ensures Valid() && history == [] && this.defaultMimetype == defaultMimetype
    {
      table, longestExt, history := [], 0, [];
      this.defaultMimetype := defaultMimetype;
    }

    /** add_mime_mapping */
    method AddMapping(extension: bytes, mimetype: bytes)
      requires Valid() && |extension| > 0 && |mimetype| > 0
      modifies this
      ensures Valid() && history == old(history) + [Mapping(extension, mimetype)]
    {
      ghost var m := Mapping(extension, mimetype);
      history := history + [m];
      if |extension| > longestExt {
        longestExt := |extension|;
      }
      var i := 0;
      while i < |table|
        invariant table == old(table) && history == old(history) + [m]
        invariant longestExt >= old(longestExt) && longestExt >= |extension|
        invariant 0 <= i <= |table|
        invariant forall k :: 0 <= k < i ==> Key(table[k]) != Key(m)
      {
        CompareOrder(Key(table[i]), Key(m));
        if CaseCompare(table[i].extension, extension) == 0 {
          IndexesReplace(table, old(history), i, m);
          table := table[i := table[i].(mimetype := mimetype)];
          return;
        }
        i := i + 1;
      }
      IndexesAppend(table, old(history), m);
      table := table + [Mapping(extension, mimetype)];
    }

    /** sort_mime_map */
    method Sort()
      requires Valid()
      modifies this`table
      ensures Valid() && Sorted(table) && multiset(table) == multiset(old(table))
    {
      ArrangeSorted(table);
      PermutationIndexes(table, Arrange(table), history);
      forall i | 0 <= i < |Arrange(table)|
        ensures 0 < |Arrange(table)[i].extension| <= longestExt
      {
        assert Arrange(table)[i] in multiset(table);
      }
      table := Arrange(table);
    }

    /**
     url_content_type: the backward scan gives up once the extension is longer than
     any known one, and yet the answer is that of the unbounded linear lookup.
     */
    method ContentType(url: bytes) returns (mimetype: bytes)
      requires Valid() && Sorted(table)
      ensures mimetype == TypeOf(history, defaultMimetype, url)
    {
      var urllen := |url|;
      var period := urllen - 1;
      while period > 0 && url[period] != DOT && urllen - period - 1 <= longestExt
        invariant -1 <= period < urllen
        invariant urllen > 0 ==> 0 <= period
        invariant forall k :: period < k < urllen ==> url[k] != DOT
        decreases period
      {
        period := period - 1;
      }
      if period >= 0 && url[period] == DOT {
        ExtensionIs(url, period);
        var result := BSearch(table, url[period + 1..]);
        Answer(result, Lower(url[period + 1..]));
        if result.Some? {
          return result.value.mimetype;
        }
      } else {
        LongExtension(url, period);
      }
      mimetype := defaultMimetype;
    }

    lemma Answer(result: Option<Mapping>, key: bytes)
      requires Valid()
      requires result.Some? ==> result.value in table && Key(result.value) == key
      requires result.None? ==> !HasKey(table, key)
      ensures Latest(history, key) == match result case None => None case Some(m) => Some(m.mimetype)
    {
      match result
      case Some(m) =>
      case None =>
        LatestFound(table, history, |history|, key);
        assert history[..|history|] == history;
    }

    /** Giving up on a long extension loses nothing. */
    lemma LongExtension(url: bytes, period: int)
      requires Valid() && -1 <= period < |url|
      requires forall k :: period < k < |url| ==> url[k] != DOT
      requires period >= 0 ==> url[period] != DOT
      requires period <= 0 || |url| - period - 1 > longestExt
      ensures TypeOf(history, defaultMimetype, url) == defaultMimetype
    {
      ExtensionLong(url, period + 1);
      if Extension(url).Some? {
        var key := Lower(Extension(url).value);
        assert |key| > longestExt;
        assert !HasKey(table, key);
        Answer(None, key);
      }
    }
  }

  lemma {:induction false} ExtensionIs(url: bytes, period: nat)
    requires period < |url| && url[period] == DOT
    requires forall k :: period < k < |url| ==> url[k] != DOT
    ensures Extension(url) == Some(url[period + 1..])
    decreases |url|
  {
    var n := |url| - 1;
    if period < n {
      ExtensionIs(url[..n], period);
      assert url[period + 1..] == url[..n][period + 1..] + [url[n]];
    }
  }

  /** If there is no dot at or after from - 1, the extension reaches further back than that. */
  lemma {:induction false} ExtensionLong(url: bytes, from: nat)
    requires from <= |url| && forall k :: from - 1 <= k < |url| ==> 0 <= k ==> url[k] != DOT
    ensures from <= 1 ==> Extension(url).None?
    ensures Extension(url).Some? ==> |Extension(url).value| > |url| - from
    decreases |url|
  {
    if from < |url| {
      ExtensionLong(url[..|url| - 1], from);
    } else if url != [] {
      assert from - 1 == |url| - 1;
      if |url| == 1 {
        assert url[..0] == [];
      }
    }
  }

  // ------------------------------------------------------------ what a lookup means

  /** The last mapping for the key, if there is one, gives the type. */
  lemma {:induction false} LatestMeans(history: seq<Mapping>, key: bytes) returns (found: bool, i: nat)
    ensures found ==> i < |history| && Lower(history[i].extension) == key && Latest(history, key) == Some(history[i].mimetype)
    ensures forall j :: (if found then i + 1 else 0) <= j < |history| ==> Lower(history[j].extension) != key
    ensures !found ==> Latest(history, key) == None
    decreases |history|
  {
    if history == [] {
      found, i := false, 0;
    } else {
      var n := |history| - 1;
      if Key(history[n]) == key {
        found, i := true, n;
      } else {
        found, i := LatestMeans(history[..n], key);
      }
    }
  }

  /**
   A URL that ends in a dot and an extension gets the type of the last mapping for that
   extension in any case, or else the default, as does a URL without a dot.
   */
  lemma TypeOfMeans(history: seq<Mapping>, fallback: bytes, front: bytes, ext: bytes, plain: bytes)
      returns (found: bool, i: nat)
    requires DOT !in ext && DOT !in plain
    ensures TypeOf(history, fallback, plain) == fallback
    ensures found ==>
              i < |history| && Lower(history[i].extension) == Lower(ext) &&
              TypeOf(history, fallback, front + [DOT] + ext) == history[i].mimetype
    ensures forall j :: (if found then i + 1 else 0) <= j < |history| ==> Lower(history[j].extension) != Lower(ext)
    ensures !found ==> TypeOf(history, fallback, front + [DOT] + ext) == fallback
  {
    hide Latest, Lower;
    var url := front + [DOT] + ext;
    assert forall k :: |front| < k < |url| ==> url[k] == ext[k - |front| - 1] && url[k] in ext;
    ExtensionIs(url, |front|);
    assert url[|front| + 1..] == ext;
    NoExtension(plain);
    found, i := LatestMeans(history, Lower(ext));
  }

  lemma {:induction false} NoExtension(url: bytes)
    requires DOT !in url
    ensures Extension(url) == None
    decreases |url|
  {
    if url != [] {
      NoExtension(url[..|url| - 1]);
    }
  }
}

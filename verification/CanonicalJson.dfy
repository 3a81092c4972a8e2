/** JSON values and the canonical form that desktop_bridge.rs digests.

    Objects are kept as ordered entry lists, so the model covers both of
    serde_json's object representations; a number is the text serde_json writes
    for it. */
module CanonicalJson {
  import opened Bytes

  datatype Json =
    | Null
    | Bool(value: bool)
    | Number(lexeme: Text)
    | String(text: Utf8)
    | Array(items: seq<Json>)
    | Object(entries: seq<Entry>)

  datatype Entry = Entry(key: Utf8, value: Json)

  // --- Key order: bytewise, as Rust compares strings ----------------------

  predicate Before(a: Text, b: Text)
    decreases |b|
  {
    if b == [] then false
    else if a == [] then true
    else if a[0] != b[0] then a[0] < b[0]
    else Before(a[1..], b[1..])
  }

  lemma {:induction false} BeforeIsStrict(a: Text)
    ensures !Before(a, a)
    decreases |a|
  {
    if a != [] { BeforeIsStrict(a[1..]); }
  }

  lemma {:induction false} BeforeIsTransitive(a: Text, b: Text, c: Text)
    requires Before(a, b) && Before(b, c)
    ensures Before(a, c)
    decreases |b|
  {
    if a != [] && a[0] == b[0] == c[0] { BeforeIsTransitive(a[1..], b[1..], c[1..]); }
  }

  lemma {:induction false} BeforeIsTotal(a: Text, b: Text)
    ensures a == b || Before(a, b) || Before(b, a)
    decreases |a|
  {
    if a != [] && b != [] && a[0] == b[0] {
      BeforeIsTotal(a[1..], b[1..]);
      assert a == [a[0]] + a[1..] && b == [b[0]] + b[1..];
    }
  }

  predicate DistinctEntries(entries: seq<Entry>) {
    forall i, j | 0 <= i < j < |entries| :: entries[i].key != entries[j].key
  }

  /** No object at any depth repeats a key, as serde_json's maps guarantee. */
  predicate DistinctKeys(v: Json) {
    match v
    case Array(items) => forall i | 0 <= i < |items| :: DistinctKeys(items[i])
    case Object(entries) =>
      && DistinctEntries(entries)
      && forall i | 0 <= i < |entries| :: DistinctKeys(entries[i].value)
    case _ => true
  }

  // --- Canonical form -----------------------------------------------------

  function Insert(e: Entry, sorted: seq<Entry>): (r: seq<Entry>)
    ensures |r| == |sorted| + 1
    ensures forall x :: x in r <==> x == e || x in sorted
  {
    if sorted != [] && Before(sorted[0].key, e.key) then [sorted[0]] + Insert(e, sorted[1..])
    else [e] + sorted
  }

  function SortByKey(entries: seq<Entry>): (r: seq<Entry>)
    ensures |r| == |entries|
    ensures forall x :: x in r <==> x in entries
  {
    if entries == [] then [] else Insert(entries[0], SortByKey(entries[1..]))
  }

  function Canonicalize(v: Json): (c: Json) {
    match v
    case Object(entries) =>
      var sorted := SortByKey(entries);
      Object(seq(|sorted|, i requires 0 <= i < |sorted| =>
        assert sorted[i] in entries;
        Entry(sorted[i].key, Canonicalize(sorted[i].value))))
    case Array(items) =>
      Array(seq(|items|, i requires 0 <= i < |items| => Canonicalize(items[i])))
    case _ => v
  }

  /** Equal but for the order of object keys, at any depth. */
  ghost predicate SameUpToKeyOrder(a: Json, b: Json) {
    match (a, b)
    case (Array(s), Array(t)) =>
      |s| == |t| && forall i | 0 <= i < |s| :: SameUpToKeyOrder(s[i], t[i])
    case (Object(s), Object(t)) =>
      && KeySet(s) == KeySet(t)
      && forall i, j | 0 <= i < |s| && 0 <= j < |t| && s[i].key == t[j].key ::
           SameUpToKeyOrder(s[i].value, t[j].value)
    case _ => a == b
  }

  function KeySet(entries: seq<Entry>): set<Text> {
    set e | e in entries :: e.key
  }

  // --- Sorting facts ------------------------------------------------------

  ghost predicate Ascending(s: seq<Entry>) {
    forall i | 0 < i < |s| :: !Before(s[i].key, s[i - 1].key)
  }

  ghost predicate StrictlyAscending(s: seq<Entry>) {
    forall i, j | 0 <= i < j < |s| :: Before(s[i].key, s[j].key)
  }

  lemma {:induction false} InsertAscending(e: Entry, s: seq<Entry>)
    requires Ascending(s)
    ensures Ascending(Insert(e, s))
    decreases |s|
  {
    if s != [] && Before(s[0].key, e.key) {
      InsertAscending(e, s[1..]);
      if Before(e.key, s[0].key) {
        BeforeIsTransitive(s[0].key, e.key, s[0].key);
        BeforeIsStrict(s[0].key);
      }
      var r := Insert(e, s[1..]);
      assert r[0] == e || r[0] == s[1];
      assert forall i | 0 < i < |r| + 1 :: Insert(e, s)[i] == r[i - 1];
    }
  }

  lemma {:induction false} SortAscending(entries: seq<Entry>)
    ensures Ascending(SortByKey(entries))
    decreases |entries|
  {
    if entries != [] {
      SortAscending(entries[1..]);
      InsertAscending(entries[0], SortByKey(entries[1..]));
    }
  }

  /** The sort is stable, so it leaves an ascending list alone. */
  lemma {:induction false} SortOfAscending(s: seq<Entry>)
    requires Ascending(s)
    ensures SortByKey(s) == s
    decreases |s|
  {
    if s != [] {
      assert forall i | 0 < i < |s[1..]| :: s[1..][i] == s[i + 1] && s[1..][i - 1] == s[i];
      SortOfAscending(s[1..]);
    }
  }

  lemma {:induction false} InsertStrict(e: Entry, s: seq<Entry>)
    requires StrictlyAscending(s) && forall x | x in s :: x.key != e.key
    ensures StrictlyAscending(Insert(e, s))
    decreases |s|
  {
    var r := Insert(e, s);
    if s != [] && Before(s[0].key, e.key) {
      InsertStrict(e, s[1..]);
      forall j | 0 < j < |r| ensures Before(r[0].key, r[j].key) {
        assert r[j] in Insert(e, s[1..]);
      }
    } else if s != [] {
      BeforeIsTotal(s[0].key, e.key);
      assert s[0] in s;
      forall j | 0 < j < |s| ensures Before(e.key, s[j].key) {
        BeforeIsTransitive(e.key, s[0].key, s[j].key);
      }
    }
  }

  lemma {:induction false} SortStrict(entries: seq<Entry>)
    requires DistinctEntries(entries)
    ensures StrictlyAscending(SortByKey(entries))
    decreases |entries|
  {
    if entries != [] {
      var rest := entries[1..];
      SortStrict(rest);
      forall x | x in SortByKey(rest) ensures x.key != entries[0].key {
        var i :| 0 <= i < |rest| && rest[i] == x;
        assert entries[i + 1] == x;
      }
      InsertStrict(entries[0], SortByKey(rest));
    }
  }

  lemma SortKeySet(entries: seq<Entry>)
    ensures KeySet(SortByKey(entries)) == KeySet(entries)
  {
    assert forall e :: e in SortByKey(entries) <==> e in entries;
  }

  /** A strictly ascending list is fixed by its key set. */
  lemma {:induction false} AscendingKeysAreForced(s: seq<Entry>, t: seq<Entry>)
    requires StrictlyAscending(s) && StrictlyAscending(t) && KeySet(s) == KeySet(t)
    ensures |s| == |t| && forall i | 0 <= i < |s| :: s[i].key == t[i].key
    decreases |s|
  {
    if s == [] || t == [] {
      assert s != [] ==> s[0].key in KeySet(s);
      assert t != [] ==> t[0].key in KeySet(t);
    } else {
      FirstKeyIsLeast(s, t);
      FirstKeyIsLeast(t, s);
      BeforeIsTotal(s[0].key, t[0].key);
      DropFirstKey(s);
      DropFirstKey(t);
      AscendingKeysAreForced(s[1..], t[1..]);
    }
  }

  lemma FirstKeyIsLeast(s: seq<Entry>, t: seq<Entry>)
    requires StrictlyAscending(s) && s != [] && t != [] && KeySet(s) == KeySet(t)
    ensures s[0].key == t[0].key || Before(s[0].key, t[0].key)
    ensures Before(s[0].key, t[0].key) ==> !Before(t[0].key, s[0].key)
  {
    assert t[0].key in KeySet(s);
    var e :| e in s && e.key == t[0].key;
    if Before(s[0].key, t[0].key) && Before(t[0].key, s[0].key) {
      BeforeIsTransitive(s[0].key, t[0].key, s[0].key);
      BeforeIsStrict(s[0].key);
    }
  }

  lemma DropFirstKey(s: seq<Entry>)
    requires StrictlyAscending(s) && s != []
    ensures StrictlyAscending(s[1..]) && KeySet(s[1..]) == KeySet(s) - {s[0].key}
  {
    BeforeIsStrict(s[0].key);
    assert s == [s[0]] + s[1..];
    forall e | e in s[1..] ensures e.key != s[0].key {
      var i :| 0 <= i < |s[1..]| && s[1..][i] == e;
      assert Before(s[0].key, s[i + 1].key);
    }
  }

  // --- The canonical-form theorems ----------------------------------------

  lemma {:induction false} CanonicalIdempotent(v: Json)
    ensures Canonicalize(Canonicalize(v)) == Canonicalize(v)
  {
    match v
    case Array(items) =>
      forall i | 0 <= i < |items| ensures Canonicalize(Canonicalize(items[i])) == Canonicalize(items[i]) {
        CanonicalIdempotent(items[i]);
      }
    case Object(entries) =>
      var sorted := SortByKey(entries);
      var c := Canonicalize(v).entries;
      SortAscending(entries);
      forall i | 0 <= i < |sorted|
        ensures Canonicalize(c[i].value) == c[i].value
      {
        assert sorted[i] in entries;
        CanonicalIdempotent(sorted[i].value);
      }
      SortOfAscending(c);
    case _ =>
  }

  lemma CanonicalOfAscending(e: seq<Entry>, c: seq<Entry>)
    requires Ascending(e) && CanonicalEntriesOf(c, e)
    ensures Canonicalize(Object(e)) == Object(c)
  {
    SortOfAscending(e);
    assert Canonicalize(Object(e)).entries == c;
  }

  /** The canonical form has the same meaning as the value. */
  lemma {:induction false} CanonicalSame(v: Json)
    requires DistinctKeys(v)
    ensures SameUpToKeyOrder(v, Canonicalize(v)) && DistinctKeys(Canonicalize(v))
  {
    match v
    case Array(items) =>
      forall i | 0 <= i < |items|
        ensures SameUpToKeyOrder(items[i], Canonicalize(items[i])) && DistinctKeys(Canonicalize(items[i]))
      {
        CanonicalSame(items[i]);
      }
    case Object(entries) =>
      CanonicalObjectSame(v);
    case _ =>
  }

  lemma {:induction false} CanonicalObjectSame(v: Json)
    requires DistinctKeys(v) && v.Object?
    ensures SameUpToKeyOrder(v, Canonicalize(v)) && DistinctKeys(Canonicalize(v))
    decreases v, 0
  {
    var entries := v.entries;
    var sorted := SortByKey(entries);
    var c := Canonicalize(v).entries;
    SortStrict(entries);
    forall i, j | 0 <= i < j < |c| ensures c[i].key != c[j].key {
      BeforeIsStrict(c[i].key);
    }
    forall j | 0 <= j < |sorted|
      ensures SameUpToKeyOrder(sorted[j].value, c[j].value) && DistinctKeys(c[j].value)
    {
      assert sorted[j] in entries;
      CanonicalSame(sorted[j].value);
    }
    SortKeySet(entries);
    CanonicalKeySet(entries);
    forall i, j | 0 <= i < |entries| && 0 <= j < |c| && entries[i].key == c[j].key
      ensures entries[i] == sorted[j]
    {
      assert sorted[j] in entries;
    }
  }

  lemma CanonicalKeySet(entries: seq<Entry>)
    ensures KeySet(Canonicalize(Object(entries)).entries) == KeySet(entries)
  {
    var sorted := SortByKey(entries);
    var c := Canonicalize(Object(entries)).entries;
    SortKeySet(entries);
    forall k | k in KeySet(sorted) ensures k in KeySet(c) {
      var i :| 0 <= i < |sorted| && sorted[i].key == k;
      assert c[i] in c;
    }
    forall k | k in KeySet(c) ensures k in KeySet(sorted) {
      var i :| 0 <= i < |c| && c[i].key == k;
      assert sorted[i] in sorted;
    }
  }

  /** Two values have one canonical form exactly when they differ only in the
      order of object keys, at any depth. */
  lemma {:induction false} CanonicalFormsAgree(a: Json, b: Json)
    requires DistinctKeys(a) && DistinctKeys(b)
    ensures Canonicalize(a) == Canonicalize(b) <==> SameUpToKeyOrder(a, b)
    decreases a, 1
  {
    match (a, b)
    case (Array(s), Array(t)) =>
      var ca, cb := Canonicalize(a).items, Canonicalize(b).items;
      assert |ca| == |s| && |cb| == |t|;
      if |s| == |t| {
        forall i | 0 <= i < |s|
          ensures ca[i] == cb[i] <==> SameUpToKeyOrder(s[i], t[i])
        {
          CanonicalFormsAgree(s[i], t[i]);
        }
        assert ca == cb <==> forall i | 0 <= i < |s| :: ca[i] == cb[i];
      }
    case (Object(s), Object(t)) =>
      CanonicalObjectsAgree(a, b);
    case _ =>
  }

  lemma {:induction false} CanonicalObjectsAgree(a: Json, b: Json)
    requires a.Object? && b.Object? && DistinctKeys(a) && DistinctKeys(b)
    ensures Canonicalize(a) == Canonicalize(b) <==> SameUpToKeyOrder(a, b)
    decreases a, 0
  {
    var s, t := a.entries, b.entries;
    forall i, j | 0 <= i < |s| && 0 <= j < |t|
      ensures Canonicalize(s[i].value) == Canonicalize(t[j].value) <==> SameUpToKeyOrder(s[i].value, t[j].value)
    {
      CanonicalFormsAgree(s[i].value, t[j].value);
    }
    SortStrict(s); SortStrict(t);
    SortKeySet(s); SortKeySet(t);
    CanonicalKeySet(s); CanonicalKeySet(t);
    if KeySet(s) == KeySet(t) {
      AscendingKeysAreForced(SortByKey(s), SortByKey(t));
      CanonicalEntriesEqual(Canonicalize(a).entries, Canonicalize(b).entries, SortByKey(s), SortByKey(t));
      AlignedValuesAgree(s, t, SortByKey(s), SortByKey(t));
    }
  }

  ghost predicate ValuesAgree(s: seq<Entry>, t: seq<Entry>) {
    forall i, j | 0 <= i < |s| && 0 <= j < |t| && s[i].key == t[j].key ::
      Canonicalize(s[i].value) == Canonicalize(t[j].value)
  }

  /** Two sorted lists with the same keys hold equal values position by position
      exactly when the unsorted lists hold equal values key by key. */
  lemma AlignedValuesAgree(s: seq<Entry>, t: seq<Entry>, ss: seq<Entry>, st: seq<Entry>)
    requires StrictlyAscending(ss) && |ss| == |st|
    requires forall k | 0 <= k < |ss| :: ss[k].key == st[k].key
    requires forall x :: x in s <==> x in ss
    requires forall y :: y in t <==> y in st
    ensures ValuesAgree(s, t) <==>
            forall k | 0 <= k < |ss| :: Canonicalize(ss[k].value) == Canonicalize(st[k].value)
  {
    forall i, j | 0 <= i < |s| && 0 <= j < |t| && s[i].key == t[j].key
      ensures exists k :: 0 <= k < |ss| && ss[k] == s[i] && st[k] == t[j]
    {
      EntriesMeet(ss, st, s[i], t[j]);
    }
    forall k | 0 <= k < |ss|
      ensures exists i, j :: 0 <= i < |s| && 0 <= j < |t| && s[i] == ss[k] && t[j] == st[k]
    {
      assert ss[k] in s && st[k] in t;
    }
  }

  lemma EntriesMeet(ss: seq<Entry>, st: seq<Entry>, x: Entry, y: Entry)
    requires StrictlyAscending(ss) && |ss| == |st|
    requires forall k | 0 <= k < |ss| :: ss[k].key == st[k].key
    requires x in ss && y in st && x.key == y.key
    ensures exists k :: 0 <= k < |ss| && ss[k] == x && st[k] == y
  {
    var p :| 0 <= p < |ss| && ss[p] == x;
    var q :| 0 <= q < |st| && st[q] == y;
    BeforeIsStrict(x.key);
    assert p == q;
  }

  ghost predicate CanonicalEntriesOf(c: seq<Entry>, sorted: seq<Entry>) {
    && |c| == |sorted|
    && forall k | 0 <= k < |c| :: c[k] == Entry(sorted[k].key, Canonicalize(sorted[k].value))
  }

  /** Canonical objects are their sorted entries with canonical values. */
  lemma CanonicalEntriesEqual(cs: seq<Entry>, ct: seq<Entry>, ss: seq<Entry>, st: seq<Entry>)
    requires CanonicalEntriesOf(cs, ss) && CanonicalEntriesOf(ct, st) && |ss| == |st|
    requires forall k | 0 <= k < |ss| :: ss[k].key == st[k].key
    ensures cs == ct <==>
            forall k | 0 <= k < |ss| :: Canonicalize(ss[k].value) == Canonicalize(st[k].value)
  {
    assert cs == ct <==> forall k | 0 <= k < |cs| :: cs[k] == ct[k];
  }

  // --- What the order is ------------------------------------------------------

  /** The texts agree on their first `k` bytes. */
  ghost predicate AgreeUpTo(a: Text, b: Text, k: nat) {
    k <= |a| && k <= |b| && forall i | 0 <= i < k :: a[i] == b[i]
  }

  /** The texts agree up to `k`, and there the first ends or has the smaller byte. */
  ghost predicate SmallerAt(a: Text, b: Text, k: nat) {
    AgreeUpTo(a, b, k) && k < |b| && (k == |a| || (k < |a| && a[k] < b[k]))
  }

  /** A text comes before another when it is its beginning and shorter, or has the smaller
      byte at the first place where they differ. */
  lemma {:induction false} BeforeIs(a: Text, b: Text)
    ensures Before(a, b) <==> exists k: nat :: SmallerAt(a, b, k)
    decreases |b|
  {
    if a == [] || b == [] || a[0] != b[0] {
      assert Before(a, b) ==> SmallerAt(a, b, 0);
    } else {
      BeforeIs(a[1..], b[1..]);
      forall k: nat | SmallerAt(a[1..], b[1..], k) ensures SmallerAt(a, b, k + 1) {
        assert forall i | 1 <= i < k + 1 :: a[i] == a[1..][i - 1] && b[i] == b[1..][i - 1];
      }
      forall k: nat | SmallerAt(a, b, k) ensures k > 0 && SmallerAt(a[1..], b[1..], k - 1) {}
    }
  }
}

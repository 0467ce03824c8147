/**
 * The contents of a Huffman code book as plain values.
 *
 * A table is a sequence of buckets; bucket i holds, in the order they were
 * appended, the entries whose key hashes to i (the key's ordinal modulo the
 * number of buckets). Keys are not unique: adding a key twice keeps both
 * entries, and a lookup answers with the first one in chain order.
 *
 * Everything the class `HuffmanCodeBook` does to its buckets is specified
 * here: appending at a chain's tail (Place), re-adding a run of entries
 * (InsertAll), rebuilding at a new size (Rehash), looking a key up
 * (TableCodes, FirstCode), encoding a string (Encoded) and the membership
 * test over a string as the source writes it (ContainsAllAsWritten).
 */
module Table {

  /** A Huffman code: a bit sequence; appending one code to another is concatenation. */
  type Code = seq<bool>

  /** One chain node: a character and its code. */
  datatype Entry = Entry(key: char, code: Code)

  /** A bucket: its entries in chain order. */
  type Chain = seq<Entry>

  datatype Option<T> = None | Some(value: T)

  /** The bucket a key hashes to: the character's ordinal modulo the table size. */
  function Index(key: char, size: int): (i: int)
    requires size > 0
    ensures 0 <= i < size
  {
    (key as int) % size
  }

  function EmptyTable(n: nat): (t: seq<Chain>)
    ensures |t| == n
  {
    seq(n, _ => [])
  }

  /** All entries of a table: bucket 0 first, each bucket in chain order. */
  function Flatten(t: seq<Chain>): (es: Chain)
  {
    if t == [] then [] else Flatten(t[..|t| - 1]) + t[|t| - 1]
  }

  /** The codes stored under k in es, in order. */
  function CodesFor(es: Chain, k: char): (cs: seq<Code>)
  {
    if es == [] then []
    else
      var e := es[|es| - 1];
      CodesFor(es[..|es| - 1], k) + (if e.key == k then [e.code] else [])
  }

  /** The entries of es that hash to bucket i of an n-bucket table, in order. */
  function BucketOf(es: Chain, n: int, i: int): (b: Chain)
    requires n > 0
  {
    if es == [] then []
    else
      var e := es[|es| - 1];
      BucketOf(es[..|es| - 1], n, i) + (if Index(e.key, n) == i then [e] else [])
  }

  /** Every entry sits in the bucket its key hashes to. */
  ghost predicate WellPlaced(t: seq<Chain>)
  {
    forall i, j :: 0 <= i < |t| && 0 <= j < |t[i]| ==> Index(t[i][j].key, |t|) == i
  }

  /** The codes the table holds for k, in insertion order (the abstract value of the book at k). */
  function TableCodes(t: seq<Chain>, k: char): (cs: seq<Code>)
    requires |t| > 0
  {
    CodesFor(t[Index(k, |t|)], k)
  }

  predicate Known(t: seq<Chain>, k: char)
    requires |t| > 0
  {
    TableCodes(t, k) != []
  }

  /** What a lookup answers: the first code stored under k, or nothing. */
  function FirstCode(t: seq<Chain>, k: char): (r: Option<Code>)
    requires |t| > 0
  {
    if Known(t, k) then Some(TableCodes(t, k)[0]) else None
  }

  /** Appending e at the tail of the bucket its key hashes to. */
  function Place(t: seq<Chain>, e: Entry): (r: seq<Chain>)
    requires |t| > 0
    ensures |r| == |t|
  {
    var i := Index(e.key, |t|);
    t[i := t[i] + [e]]
  }

  /** Placing the entries of es one after the other. */
  function InsertAll(t: seq<Chain>, es: Chain): (r: seq<Chain>)
    requires |t| > 0
    ensures |r| == |t|
  {
    if es == [] then t else Place(InsertAll(t, es[..|es| - 1]), es[|es| - 1])
  }

  /** An n-bucket table rebuilt from t: every entry of t re-added in traversal order. */
  function Rehash(t: seq<Chain>, n: int): (r: seq<Chain>)
    requires n > 0
    ensures |r| == n
  {
    InsertAll(EmptyTable(n), Flatten(t))
  }

  // ---------------------------------------------------------------------
  // Filters distribute over concatenation
  // ---------------------------------------------------------------------

  lemma {:induction false} CodesForAppend(a: Chain, b: Chain, k: char)
    ensures CodesFor(a + b, k) == CodesFor(a, k) + CodesFor(b, k)
    decreases |b|
  {
    if b == [] {
      assert a + b == a;
    } else {
      assert (a + b)[..|a + b| - 1] == a + b[..|b| - 1];
      CodesForAppend(a, b[..|b| - 1], k);
    }
  }

  lemma {:induction false} BucketOfAppend(a: Chain, b: Chain, n: int, i: int)
    requires n > 0
    ensures BucketOf(a + b, n, i) == BucketOf(a, n, i) + BucketOf(b, n, i)
    decreases |b|
  {
    if b == [] {
      assert a + b == a;
    } else {
      assert (a + b)[..|a + b| - 1] == a + b[..|b| - 1];
      BucketOfAppend(a, b[..|b| - 1], n, i);
    }
  }

  /** k has codes in es exactly when some entry of es has the key k. */
  lemma {:induction false} CodesForNonEmpty(es: Chain, k: char)
    ensures CodesFor(es, k) != [] <==> exists j :: 0 <= j < |es| && es[j].key == k
    decreases |es|
  {
    if es != [] {
      var init, last := es[..|es| - 1], es[|es| - 1];
      CodesForNonEmpty(init, k);
      if exists j :: 0 <= j < |init| && init[j].key == k {
        var j :| 0 <= j < |init| && init[j].key == k;
        assert es[j].key == k;
      }
      if exists j :: 0 <= j < |es| && es[j].key == k {
        var j :| 0 <= j < |es| && es[j].key == k;
        if j < |init| {
          assert init[j].key == k;
        }
      }
    }
  }

  lemma {:induction false} CodesForAbsent(es: Chain, k: char)
    requires forall j :: 0 <= j < |es| ==> es[j].key != k
    ensures CodesFor(es, k) == []
    decreases |es|
  {
    if es != [] {
      CodesForAbsent(es[..|es| - 1], k);
    }
  }

  lemma {:induction false} BucketOfUniform(es: Chain, n: int, i: int, j: int)
    requires n > 0
    requires forall m :: 0 <= m < |es| ==> Index(es[m].key, n) == j
    ensures BucketOf(es, n, i) == if i == j then es else []
    decreases |es|
  {
    if es != [] {
      BucketOfUniform(es[..|es| - 1], n, i, j);
      assert es == es[..|es| - 1] + [es[|es| - 1]];
    }
  }

  lemma {:induction false} BucketOfPlaced(es: Chain, n: int, i: int)
    requires n > 0
    ensures forall m :: 0 <= m < |BucketOf(es, n, i)| ==> Index(BucketOf(es, n, i)[m].key, n) == i
    decreases |es|
  {
    if es != [] {
      BucketOfPlaced(es[..|es| - 1], n, i);
    }
  }

  /** Selecting the bucket of k loses none of k's codes. */
  lemma {:induction false} CodesForBucketOf(es: Chain, n: int, k: char)
    requires n > 0
    ensures CodesFor(BucketOf(es, n, Index(k, n)), k) == CodesFor(es, k)
    decreases |es|
  {
    if es != [] {
      var init, e := es[..|es| - 1], es[|es| - 1];
      CodesForBucketOf(init, n, k);
      var tail := if Index(e.key, n) == Index(k, n) then [e] else [];
      CodesForAppend(BucketOf(init, n, Index(k, n)), tail, k);
      if tail == [e] {
        assert [e][..0] == [];
      }
    }
  }

  // ---------------------------------------------------------------------
  // Flattening a well-placed table
  // ---------------------------------------------------------------------

  lemma FlattenSnoc(t: seq<Chain>, m: int)
    requires 0 <= m < |t|
    ensures Flatten(t[..m + 1]) == Flatten(t[..m]) + t[m]
  {
    assert t[..m + 1][..m] == t[..m];
  }

  lemma {:induction false} FlattenPrefixLength(t: seq<Chain>, m: nat)
    requires m <= |t|
    ensures |Flatten(t[..m])| <= |Flatten(t)|
    decreases |t| - m
  {
    if m < |t| {
      FlattenSnoc(t, m);
      FlattenPrefixLength(t, m + 1);
    } else {
      assert t[..m] == t;
    }
  }

  lemma {:induction false} FlattenPrefixCodes(t: seq<Chain>, m: nat, k: char)
    requires |t| > 0 && m <= |t| && WellPlaced(t)
    ensures CodesFor(Flatten(t[..m]), k) == if Index(k, |t|) < m then TableCodes(t, k) else []
  {
    if m == 0 {
      assert t[..0] == [];
    } else {
      var prev := Flatten(t[..m - 1]);
      FlattenPrefixCodes(t, m - 1, k);
      assert CodesFor(Flatten(t[..m]), k) == CodesFor(prev, k) + CodesFor(t[m - 1], k) by {
        FlattenSnoc(t, m - 1);
        CodesForAppend(prev, t[m - 1], k);
      }
      if Index(k, |t|) != m - 1 {
        assert CodesFor(t[m - 1], k) == [] by {
          CodesForAbsent(t[m - 1], k);
        }
      }
    }
  }

  /** In a well-placed table the codes of k, read over all buckets, are those of k's bucket. */
  lemma FlattenCodes(t: seq<Chain>, k: char)
    requires |t| > 0 && WellPlaced(t)
    ensures CodesFor(Flatten(t), k) == TableCodes(t, k)
  {
    FlattenPrefixCodes(t, |t|, k);
    assert t[..|t|] == t;
  }

  /** In a well-placed table, k is known exactly when some stored entry has the key k. */
  lemma KnownIff(t: seq<Chain>, k: char)
    requires |t| > 0 && WellPlaced(t)
    ensures Known(t, k) <==> exists j :: 0 <= j < |Flatten(t)| && Flatten(t)[j].key == k
  {
    FlattenCodes(t, k);
    CodesForNonEmpty(Flatten(t), k);
  }

  lemma {:induction false} FlattenPrefixBucket(t: seq<Chain>, m: nat, i: int)
    requires 0 <= i < |t| && m <= |t| && WellPlaced(t)
    ensures BucketOf(Flatten(t[..m]), |t|, i) == if i < m then t[i] else []
  {
    if m == 0 {
      assert t[..0] == [];
    } else {
      FlattenPrefixBucket(t, m - 1, i);
      FlattenSnoc(t, m - 1);
      BucketOfAppend(Flatten(t[..m - 1]), t[m - 1], |t|, i);
      BucketOfUniform(t[m - 1], |t|, i, m - 1);
    }
  }

  lemma {:induction false} FlattenEmptyTable(n: nat)
    ensures Flatten(EmptyTable(n)) == []
  {
    if n > 0 {
      assert EmptyTable(n)[..n - 1] == EmptyTable(n - 1);
      FlattenEmptyTable(n - 1);
    }
  }

  lemma {:induction false} FlattenAppendAt(t: seq<Chain>, i: int, e: Entry)
    requires 0 <= i < |t|
    ensures multiset(Flatten(t[i := t[i] + [e]])) == multiset(Flatten(t)) + multiset{e}
    decreases |t|
  {
    var last := |t| - 1;
    var u := t[i := t[i] + [e]];
    assert Flatten(u) == Flatten(u[..last]) + u[last];
    assert Flatten(t) == Flatten(t[..last]) + t[last];
    if i == last {
      assert u[..last] == t[..last];
      assert multiset(t[i] + [e]) == multiset(t[i]) + multiset{e};
    } else {
      assert u[..last] == t[..last][i := t[..last][i] + [e]];
      FlattenAppendAt(t[..last], i, e);
    }
  }

  // ---------------------------------------------------------------------
  // Adding one entry
  // ---------------------------------------------------------------------

  /** Adding an entry adds exactly that entry to the table's contents. */
  lemma PlaceContents(t: seq<Chain>, e: Entry)
    requires |t| > 0
    ensures multiset(Flatten(Place(t, e))) == multiset(Flatten(t)) + multiset{e}
    ensures |Flatten(Place(t, e))| == |Flatten(t)| + 1
  {
    FlattenAppendAt(t, Index(e.key, |t|), e);
    assert |multiset(Flatten(Place(t, e)))| == |Flatten(Place(t, e))|;
  }

  lemma PlaceWellPlaced(t: seq<Chain>, e: Entry)
    requires |t| > 0 && WellPlaced(t)
    ensures WellPlaced(Place(t, e))
  {
  }

  /** Adding (k, v) appends v to the codes of k and leaves every other key's codes alone. */
  lemma PlaceCodes(t: seq<Chain>, e: Entry, k: char)
    requires |t| > 0
    ensures TableCodes(Place(t, e), k) == TableCodes(t, k) + (if k == e.key then [e.code] else [])
  {
    var i := Index(e.key, |t|);
    if Index(k, |t|) == i {
      var c := t[i] + [e];
      assert c[..|c| - 1] == t[i];
    }
  }

  /** After adding (k, v): k is known; a lookup of k still finds an older code if there was
      one (duplicates are kept, not overwritten); lookups of other keys do not change. */
  lemma FirstCodeAfterPlace(t: seq<Chain>, e: Entry, k: char)
    requires |t| > 0
    ensures Known(Place(t, e), e.key)
    ensures FirstCode(Place(t, e), k) ==
              if k == e.key && !Known(t, k) then Some(e.code) else FirstCode(t, k)
  {
    PlaceCodes(t, e, k);
    PlaceCodes(t, e, e.key);
  }

  /** Adding an entry keeps the table well placed, adds one to its count, and appends the
      entry's code to its key's codes, for every key at once. */
  lemma PlaceKeepsShape(t: seq<Chain>, e: Entry)
    requires |t| > 0 && WellPlaced(t)
    ensures WellPlaced(Place(t, e))
    ensures |Flatten(Place(t, e))| == |Flatten(t)| + 1
    ensures forall k :: TableCodes(Place(t, e), k) ==
                          TableCodes(t, k) + (if k == e.key then [e.code] else [])
  {
    PlaceWellPlaced(t, e);
    PlaceContents(t, e);
    forall k
      ensures TableCodes(Place(t, e), k) == TableCodes(t, k) + (if k == e.key then [e.code] else [])
    {
      PlaceCodes(t, e, k);
    }
  }

  // ---------------------------------------------------------------------
  // Rebuilding at a new size
  // ---------------------------------------------------------------------

  lemma {:induction false} InsertAllBucket(t: seq<Chain>, es: Chain, i: int)
    requires |t| > 0 && 0 <= i < |t|
    ensures InsertAll(t, es)[i] == t[i] + BucketOf(es, |t|, i)
    decreases |es|
  {
    if es != [] {
      InsertAllBucket(t, es[..|es| - 1], i);
    }
  }

  lemma {:induction false} InsertAllAppend(t: seq<Chain>, a: Chain, b: Chain)
    requires |t| > 0
    ensures InsertAll(t, a + b) == InsertAll(InsertAll(t, a), b)
    decreases |b|
  {
    if b == [] {
      assert a + b == a;
    } else {
      assert (a + b)[..|a + b| - 1] == a + b[..|b| - 1];
      InsertAllAppend(t, a, b[..|b| - 1]);
    }
  }

  /** Re-adding the chains of t up to and including slot m is re-adding those before m and
      then chain m. */
  lemma InsertAllPrefixStep(t: seq<Chain>, m: int, n: int)
    requires 0 <= m < |t| && n > 0
    ensures InsertAll(EmptyTable(n), Flatten(t[..m + 1]))
         == InsertAll(InsertAll(EmptyTable(n), Flatten(t[..m])), t[m])
    ensures |Flatten(t[..m + 1])| == |Flatten(t[..m])| + |t[m]| <= |Flatten(t)|
  {
    FlattenSnoc(t, m);
    FlattenPrefixLength(t, m + 1);
    InsertAllAppend(EmptyTable(n), Flatten(t[..m]), t[m]);
  }

  lemma {:induction false} InsertAllContents(t: seq<Chain>, es: Chain)
    requires |t| > 0
    ensures multiset(Flatten(InsertAll(t, es))) == multiset(Flatten(t)) + multiset(es)
    decreases |es|
  {
    if es != [] {
      var init, last := es[..|es| - 1], es[|es| - 1];
      var prev := InsertAll(t, init);
      InsertAllContents(t, init);
      PlaceContents(prev, last);
      assert es == init + [last];
      calc {
        multiset(Flatten(InsertAll(t, es)));
        multiset(Flatten(prev)) + multiset{last};
        multiset(Flatten(t)) + multiset(init) + multiset{last};
        multiset(Flatten(t)) + (multiset(init) + multiset{last});
        multiset(Flatten(t)) + multiset(es);
      }
    }
  }

  /** Bucket i of a rebuilt table holds the entries hashing to i, in traversal order. */
  lemma RehashBucket(t: seq<Chain>, n: int, i: int)
    requires n > 0 && 0 <= i < n
    ensures Rehash(t, n)[i] == BucketOf(Flatten(t), n, i)
  {
    InsertAllBucket(EmptyTable(n), Flatten(t), i);
  }

  lemma RehashWellPlaced(t: seq<Chain>, n: int)
    requires n > 0
    ensures WellPlaced(Rehash(t, n))
  {
    forall i | 0 <= i < n
      ensures forall j :: 0 <= j < |Rehash(t, n)[i]| ==> Index(Rehash(t, n)[i][j].key, n) == i
    {
      RehashBucket(t, n, i);
      BucketOfPlaced(Flatten(t), n, i);
    }
  }

  /** A rebuild keeps exactly the entries it was given, so it keeps the count. */
  lemma RehashContents(t: seq<Chain>, n: int)
    requires n > 0
    ensures multiset(Flatten(Rehash(t, n))) == multiset(Flatten(t))
    ensures |Flatten(Rehash(t, n))| == |Flatten(t)|
  {
    InsertAllContents(EmptyTable(n), Flatten(t));
    FlattenEmptyTable(n);
    assert |multiset(Flatten(Rehash(t, n)))| == |Flatten(Rehash(t, n))|;
  }

  /** A rebuild keeps every key's codes in their order, so every lookup answers as before. */
  lemma RehashCodes(t: seq<Chain>, n: int, k: char)
    requires |t| > 0 && n > 0 && WellPlaced(t)
    ensures TableCodes(Rehash(t, n), k) == TableCodes(t, k)
    ensures FirstCode(Rehash(t, n), k) == FirstCode(t, k)
  {
    RehashBucket(t, n, Index(k, n));
    CodesForBucketOf(Flatten(t), n, k);
    FlattenCodes(t, k);
  }

  lemma RehashCodesAll(t: seq<Chain>, n: int)
    requires |t| > 0 && n > 0 && WellPlaced(t)
    ensures forall k :: TableCodes(Rehash(t, n), k) == TableCodes(t, k)
  {
    forall k
      ensures TableCodes(Rehash(t, n), k) == TableCodes(t, k)
    {
      RehashCodes(t, n, k);
    }
  }

  /** Growing the table before an addition is invisible to lookups: the codes of every key,
      and hence what a lookup returns, are those of the same addition without the growth. */
  lemma PlaceAfterRehashCodes(t: seq<Chain>, n: int, e: Entry, k: char)
    requires |t| > 0 && n > 0 && WellPlaced(t)
    ensures TableCodes(Place(Rehash(t, n), e), k)
         == TableCodes(t, k) + (if k == e.key then [e.code] else [])
    ensures Known(Place(Rehash(t, n), e), e.key)
    ensures FirstCode(Place(Rehash(t, n), e), k) == FirstCode(Place(t, e), k)
  {
    RehashCodes(t, n, k);
    PlaceCodes(Rehash(t, n), e, k);
    PlaceCodes(t, e, k);
    FirstCodeAfterPlace(Rehash(t, n), e, k);
  }

  /** Rebuilding a rebuilt table at the same size changes nothing: copying the temporary
      table back, bucket by bucket, reproduces it. */
  lemma RehashIdempotent(t: seq<Chain>, n: int)
    requires n > 0
    ensures Rehash(Rehash(t, n), n) == Rehash(t, n)
  {
    var r := Rehash(t, n);
    RehashWellPlaced(t, n);
    forall i | 0 <= i < n
      ensures Rehash(r, n)[i] == r[i]
    {
      RehashBucket(r, n, i);
      FlattenPrefixBucket(r, n, i);
      assert r[..n] == r;
    }
  }

  // ---------------------------------------------------------------------
  // Encoding
  // ---------------------------------------------------------------------

  /** The contribution of one character to an encoding: its first code, or nothing. */
  function CodeOrEmpty(t: seq<Chain>, c: char): (code: Code)
    requires |t| > 0
  {
    match FirstCode(t, c)
    case None => []
    case Some(v) => v
  }

  /** The encoding of s: the codes of its characters in order, unknown characters skipped. */
  function Encoded(t: seq<Chain>, s: string): (bits: Code)
    requires |t| > 0
  {
    if s == [] then [] else Encoded(t, s[..|s| - 1]) + CodeOrEmpty(t, s[|s| - 1])
  }

  /** Encoding distributes over concatenation of the input. */
  lemma {:induction false} EncodedAppend(t: seq<Chain>, s: string, u: string)
    requires |t| > 0
    ensures Encoded(t, s + u) == Encoded(t, s) + Encoded(t, u)
    decreases |u|
  {
    if u == [] {
      assert s + u == s;
    } else {
      assert (s + u)[..|s + u| - 1] == s + u[..|u| - 1];
      EncodedAppend(t, s, u[..|u| - 1]);
    }
  }

  /** A one-character string encodes to that character's first code, or to nothing. */
  lemma EncodedChar(t: seq<Chain>, c: char)
    requires |t| > 0
    ensures Encoded(t, [c]) == if Known(t, c) then TableCodes(t, c)[0] else []
  {
    assert [c][..0] == [];
  }

  /** Characters the book does not know contribute nothing. */
  lemma {:induction false} EncodedUnknown(t: seq<Chain>, s: string)
    requires |t| > 0
    requires forall i :: 0 <= i < |s| ==> !Known(t, s[i])
    ensures Encoded(t, s) == []
    decreases |s|
  {
    if s != [] {
      EncodedUnknown(t, s[..|s| - 1]);
    }
  }

  /** With 'a' -> 0 and 'b' -> 1 in a five-bucket book, "abc" encodes to 01. */
  lemma EncodeSkipsUnknown()
    ensures Encoded(Place(Place(EmptyTable(5), Entry('a', [false])), Entry('b', [true])), "abc")
            == [false, true]
  {
    var t1 := Place(EmptyTable(5), Entry('a', [false]));
    var t := Place(t1, Entry('b', [true]));
    assert CodeOrEmpty(t, 'a') == [false] by {
      PlaceCodes(EmptyTable(5), Entry('a', [false]), 'a');
      PlaceCodes(t1, Entry('b', [true]), 'a');
    }
    assert CodeOrEmpty(t, 'b') == [true] by {
      PlaceCodes(EmptyTable(5), Entry('a', [false]), 'b');
      PlaceCodes(t1, Entry('b', [true]), 'b');
    }
    assert CodeOrEmpty(t, 'c') == [] by {
      PlaceCodes(EmptyTable(5), Entry('a', [false]), 'c');
      PlaceCodes(t1, Entry('b', [true]), 'c');
    }
    assert Encoded(t, "a") == [false] by {
      assert "a"[..0] == [];
    }
    assert Encoded(t, "ab") == [false, true] by {
      assert "ab"[..1] == "a";
    }
    assert "abc"[..2] == "ab";
  }

  // ---------------------------------------------------------------------
  // The membership test over a string
  // ---------------------------------------------------------------------

  /** The position of the first character of s the book knows, if any. */
  function FirstKnown(t: seq<Chain>, s: string): (r: Option<nat>)
    requires |t| > 0
    ensures r.Some? ==> r.value < |s| && Known(t, s[r.value])
    ensures r.Some? ==> forall m :: 0 <= m < r.value ==> !Known(t, s[m])
    ensures r.None? ==> forall m :: 0 <= m < |s| ==> !Known(t, s[m])
  {
    if s == [] then None
    else if Known(t, s[0]) then Some(0)
    else match FirstKnown(t, s[1..])
      case None => None
      case Some(m) => Some(m + 1)
  }

  /** `containsAll` as the source computes it: true for "", `contains` for one character, and
      otherwise `contains(s[i])` for the least i >= 1 whose predecessor s[i-1] is known
      (false when no character but possibly the last is known). */
  function ContainsAllAsWritten(t: seq<Chain>, s: string): (b: bool)
    requires |t| > 0
  {
    if |s| == 1 then Known(t, s[0])
    else if |s| == 0 then true
    else match FirstKnown(t, s[..|s| - 1])
      case None => false
      case Some(m) => Known(t, s[m + 1])
  }

  /** What `containsAll` evidently means: every character of s is known. */
  predicate AllKnown(t: seq<Chain>, s: string)
    requires |t| > 0
  {
    forall i :: 0 <= i < |s| ==> Known(t, s[i])
  }

  /** The written test never rejects a string whose characters are all known. */
  lemma AllKnownPassesContainsAll(t: seq<Chain>, s: string)
    requires |t| > 0 && AllKnown(t, s)
    ensures ContainsAllAsWritten(t, s)
  {
    if |s| >= 2 {
      assert Known(t, s[..|s| - 1][0]);
    }
  }

  /** ... but it accepts strings with unknown characters: in a book that knows only 'a',
      "aaz" passes because only the first pair is ever looked at. */
  lemma ContainsAllOverlooksLaterLetters()
    ensures ContainsAllAsWritten(Place(EmptyTable(5), Entry('a', [false])), "aaz")
    ensures !AllKnown(Place(EmptyTable(5), Entry('a', [false])), "aaz")
  {
    var t := Place(EmptyTable(5), Entry('a', [false]));
    PlaceCodes(EmptyTable(5), Entry('a', [false]), 'a');
    PlaceCodes(EmptyTable(5), Entry('a', [false]), 'z');
    assert Known(t, 'a') && !Known(t, 'z');
    assert "aaz"[2] == 'z';
    assert "aaz"[..2] == "aa";
    assert FirstKnown(t, "aa") == Some(0);
  }
}

/**
 * The code book itself: a hash table with separate chaining that maps a
 * character to its Huffman code, grows to a prime size when it gets
 * crowded, and encodes strings with the codes it holds.
 *
 * The Java class keeps an array of singly-linked chains; here each slot of
 * the array holds its chain as a sequence of entries, in chain order, so
 * walking a chain is walking a sequence and appending at the tail is
 * concatenation. The contents of the table are described by the functions
 * of module Table, applied to `buckets[..]`.
 */
module CodeBook {
  import opened Table
  import opened Primes

  /** The size the no-argument constructor allocates. */
  const DefaultBookSize := 5

  /** The growth test `addSequence` applies before inserting: integer load factor above 1. */
  predicate Crowded(itemCount: int, bookSize: int)
    requires bookSize > 0
  {
    itemCount / bookSize > 1
  }

  /** The guard grows the table once it holds at least twice as many entries as buckets
      (not at "more than three" per bucket, as the comments on addSequence say). */
  lemma CrowdedIff(itemCount: nat, bookSize: int)
    requires bookSize > 0
    ensures Crowded(itemCount, bookSize) <==> itemCount >= 2 * bookSize
  {
    var q, r := itemCount / bookSize, itemCount % bookSize;
    assert itemCount == bookSize * q + r;
    MulAwayFromZero(bookSize, q - 1);
    if q >= 2 {
      assert bookSize * q == bookSize * (q - 1) + bookSize;
    }
  }

  class HuffmanCodeBook {
    /** Number of entries over all chains. */
    var itemCount: int
    /** Number of buckets. */
    var bookSize: int
    /** The chains, one per bucket. */
    var buckets: array<Chain>

    /** The object invariant. Besides the source's own invariants (positive size, every entry
        in the bucket its key hashes to, itemCount counting the chained entries), a table only
        ever holds at most twice as many entries as buckets (itemCount <= 2 * bookSize):
        growth starts at 2 * bookSize entries and more than doubles the size. */
    ghost predicate Valid()
      reads this, buckets
    {
      && bookSize == buckets.Length
      && bookSize > 0
      && WellPlaced(buckets[..])
      && itemCount == |Flatten(buckets[..])|
      && itemCount <= 2 * bookSize
    }

    ghost function Chains(): (t: seq<Chain>)
      reads this, buckets
      requires Valid()
      ensures |t| == bookSize > 0
    {
      buckets[..]
    }

    /** The default book: five empty buckets. */
    constructor ()
      ensures Valid() && fresh(buckets)
      ensures bookSize == DefaultBookSize && itemCount == 0
      ensures Chains() == EmptyTable(DefaultBookSize)
    {
      bookSize := DefaultBookSize;
      itemCount := 0;
      buckets := new Chain[DefaultBookSize](_ => []);
      new;
      assert buckets[..] == EmptyTable(DefaultBookSize);
      FlattenEmptyTable(DefaultBookSize);
    }

    /** A book with `size` empty buckets. */
    constructor OfSize(size: int)
      requires size > 0
      ensures Valid() && fresh(buckets)
      ensures bookSize == size && itemCount == 0
      ensures Chains() == EmptyTable(size)
    {
      bookSize := size;
      itemCount := 0;
      buckets := new Chain[size](_ => []);
      new;
      assert buckets[..] == EmptyTable(size);
      FlattenEmptyTable(size);
    }

    /** Adds (key, val) at the tail of key's chain, growing the table first when it is
        crowded. No check for an existing entry under key is made. */
    method AddSequence(key: char, val: Code)
      requires Valid()
      modifies this, buckets
      ensures Valid()
      ensures itemCount == old(itemCount) + 1
      ensures !old(Crowded(itemCount, bookSize)) ==>
                && buckets == old(buckets)
                && bookSize == old(bookSize)
                && Chains() == Place(old(Chains()), Entry(key, val))
      ensures old(Crowded(itemCount, bookSize)) ==>
                && fresh(buckets)
                && bookSize == LeastPassingFrom(2 * old(bookSize) + 1)
                && Chains() == Place(Rehash(old(Chains()), bookSize), Entry(key, val))
      decreases if Crowded(itemCount, bookSize) then 2 else 0, 0
    {
      CrowdedIff(itemCount, bookSize);
      if itemCount / bookSize > 1 {
        Expand();
      }
      ghost var rebuilt := buckets[..];
      // An empty slot and a non-empty chain both end up with the new entry at the tail.
      var index := Index(key, bookSize);
      buckets[index] := buckets[index] + [Entry(key, val)];
      itemCount := itemCount + 1;
      assert buckets[..] == Place(rebuilt, Entry(key, val));
      PlaceKeepsShape(rebuilt, Entry(key, val));
    }

    /** Walks a chain and adds each of its entries with AddSequence, in chain order: the inner
        loop of both phases of Expand. The book is roomy enough that none of these additions
        makes it grow. */
    method AddChain(chain: Chain)
      requires Valid()
      requires itemCount + |chain| <= 2 * bookSize
      modifies this, buckets
      ensures Valid()
      ensures buckets == old(buckets) && bookSize == old(bookSize)
      ensures itemCount == old(itemCount) + |chain|
      ensures Chains() == InsertAll(old(Chains()), chain)
      decreases 1, 0
    {
      ghost var start := buckets[..];
      var j := 0;
      while j < |chain|
        invariant 0 <= j <= |chain|
        invariant Valid()
        invariant buckets == old(buckets) && bookSize == old(bookSize)
        invariant itemCount == old(itemCount) + j
        invariant Chains() == InsertAll(start, chain[..j])
      {
        CrowdedIff(itemCount, bookSize);
        assert chain[..j + 1][..j] == chain[..j];
        AddSequence(chain[j].key, chain[j].code);
        j := j + 1;
      }
      assert chain[..j] == chain;
    }

    /** Is there an entry under key? Walks key's chain. */
    method Contains(key: char) returns (found: bool)
      requires Valid()
      ensures found <==> Known(Chains(), key)
    {
      var index := Index(key, bookSize);
      var chain := buckets[index];
      var j := 0;
      while j < |chain|
        invariant 0 <= j <= |chain|
        invariant CodesFor(chain[..j], key) == []
      {
        if chain[j].key == key {
          CodesForAppend(chain[..j + 1], chain[j + 1..], key);
          assert chain[..j + 1] + chain[j + 1..] == chain;
          assert chain[..j + 1][..j] == chain[..j];
          return true;
        }
        assert chain[..j + 1][..j] == chain[..j];
        j := j + 1;
      }
      assert chain[..j] == chain;
      return false;
    }

    /** The code of the first entry under key in chain order, or None (Java's null). */
    method GetSequence(key: char) returns (r: Option<Code>)
      requires Valid()
      ensures r.None? <==> !Known(Chains(), key)
      ensures r.Some? ==> r.value == TableCodes(Chains(), key)[0]
    {
      var index := Index(key, bookSize);
      var chain := buckets[index];
      var j := 0;
      while j < |chain|
        invariant 0 <= j <= |chain|
        invariant CodesFor(chain[..j], key) == []
      {
        if chain[j].key == key {
          CodesForAppend(chain[..j + 1], chain[j + 1..], key);
          assert chain[..j + 1] + chain[j + 1..] == chain;
          assert chain[..j + 1][..j] == chain[..j];
          return Some(chain[j].code);
        }
        assert chain[..j + 1][..j] == chain[..j];
        j := j + 1;
      }
      assert chain[..j] == chain;
      return None;
    }

    /** The membership test over a string, exactly as the source writes it. */
    method ContainsAll(letters: string) returns (b: bool)
      requires Valid()
      ensures b == ContainsAllAsWritten(Chains(), letters)
    {
      if |letters| == 1 {
        b := Contains(letters[0]);
        return;
      }
      if |letters| == 0 {
        return true;
      }
      ghost var prefix := letters[..|letters| - 1];
      var i := 1;
      while i < |letters|
        invariant 1 <= i <= |letters|
        invariant forall m :: 0 <= m < i - 1 ==> !Known(Chains(), letters[m])
      {
        var known := Contains(letters[i - 1]);
        if known {
          b := Contains(letters[i]);
          assert prefix[i - 1] == letters[i - 1];
          return;
        }
        i := i + 1;
      }
      assert forall m :: 0 <= m < |prefix| ==> !Known(Chains(), prefix[m]);
      return false;
    }

    /** The membership test `containsAll` evidently intends: every character is known. */
    method ContainsEveryLetter(letters: string) returns (b: bool)
      requires Valid()
      ensures b <==> AllKnown(Chains(), letters)
    {
      for i := 0 to |letters|
        invariant forall m :: 0 <= m < i ==> Known(Chains(), letters[m])
      {
        var known := Contains(letters[i]);
        if !known {
          return false;
        }
      }
      return true;
    }

    /** Concatenates the codes of the characters of s that the book knows. */
    method Encode(s: string) returns (encoded: Code)
      requires Valid()
      ensures encoded == Encoded(Chains(), s)
    {
      encoded := [];
      for i := 0 to |s|
        invariant encoded == Encoded(Chains(), s[..i])
      {
        var c := s[i];
        assert s[..i + 1][..i] == s[..i];
        var known := Contains(c);
        if known {
          var code := GetSequence(c);
          encoded := encoded + code.value;
        }
      }
      assert s[..|s|] == s;
    }

    /** Every stored key, bucket 0 first and each chain in order; exactly itemCount of them. */
    method GetHuffmanChars() returns (chars: array<char>)
      requires Valid()
      ensures fresh(chars)
      ensures chars.Length == itemCount
      ensures chars[..] == KeysOf(Flatten(Chains()))
    {
      var length := 0;
      chars := new char[itemCount];
      ghost var t := buckets[..];
      for i := 0 to bookSize
        invariant length == |Flatten(t[..i])| <= chars.Length
        invariant chars[..length] == KeysOf(Flatten(t[..i]))
      {
        var chain := buckets[i];
        FlattenSnoc(t, i);
        FlattenPrefixLength(t, i + 1);
        assert |Flatten(t[..i])| + |chain| <= chars.Length;
        var j := 0;
        while j < |chain|
          invariant 0 <= j <= |chain|
          invariant length == |Flatten(t[..i])| + j <= chars.Length
          invariant chars[..length] == KeysOf(Flatten(t[..i]) + chain[..j])
        {
          assert Flatten(t[..i]) + chain[..j + 1] == (Flatten(t[..i]) + chain[..j]) + [chain[j]];
          chars[length] := chain[j].key;
          j := j + 1;
          length := length + 1;
        }
        assert chain[..j] == chain;
      }
      assert t[..bookSize] == t;
      assert chars[..] == chars[..length];
    }

    /** nextPrime: the least candidate from num on that passes the trial division. */
    static method NextPrime(num: nat) returns (r: nat)
      ensures r == LeastPassingFrom(num)
      decreases LeastPassingFrom(num) - num
    {
      LeastPassingFromIsLeast(num);
      var i := 2;
      while i < num / 2
        invariant 2 <= i
        invariant forall d :: 2 <= d < i ==> !Divides(d, num)
      {
        if num % i == 0 {
          assert Divides(i, num);
          LeastPassingFromStep(num);
          LeastPassingFromIsLeast(num + 1);
          r := NextPrime(num + 1);
          return;
        }
        i := i + 1;
      }
      return num;
    }

    /** Grows the table to nextPrime(2 * bookSize + 1) buckets: every entry is first re-added
        to a temporary book of that size (DrainInto), then copied back, bucket by bucket, into
        a fresh array of this book (RefillFrom). */
    method Expand()
      requires Valid()
      modifies this, buckets
      ensures Valid() && fresh(buckets)
      ensures itemCount == old(itemCount)
      ensures bookSize == LeastPassingFrom(2 * old(bookSize) + 1)
      ensures IsPrime(bookSize) && bookSize > 2 * old(bookSize)
      ensures Chains() == Rehash(old(Chains()), bookSize)
      decreases 1, 2
    {
      ghost var start := buckets[..];
      ghost var oldSize := bookSize;
      var newSize := NextPrime(2 * bookSize + 1);
      GrownSizeIsPrime(bookSize);
      LeastPassingFromIsLeast(2 * bookSize + 1);
      assert IsPrime(newSize) && newSize > 2 * oldSize;
      var tempBook := new HuffmanCodeBook.OfSize(newSize);
      assert |Flatten(start)| <= 2 * oldSize;
      DrainInto(tempBook);
      RehashContents(start, newSize);
      RefillFrom(tempBook);
      RehashIdempotent(start, newSize);
    }

    /** The first phase of Expand: every chain of this book, in slot order, is re-added entry
        by entry to the larger, empty tempBook, and each slot of this book is emptied. */
    method DrainInto(tempBook: HuffmanCodeBook)
      requires bookSize == buckets.Length
      requires tempBook.Valid() && tempBook != this && tempBook.buckets != buckets
      requires tempBook.itemCount == 0 && tempBook.Chains() == EmptyTable(tempBook.bookSize)
      requires |Flatten(buckets[..])| <= 2 * tempBook.bookSize
      modifies buckets, tempBook, tempBook.buckets
      ensures tempBook.Valid()
      ensures tempBook.buckets == old(tempBook.buckets) && tempBook.bookSize == old(tempBook.bookSize)
      ensures tempBook.itemCount == |Flatten(old(buckets[..]))|
      ensures tempBook.Chains() == Rehash(old(buckets[..]), tempBook.bookSize)
      ensures buckets[..] == EmptyTable(bookSize)
      decreases 1, 1
    {
      ghost var start := buckets[..];
      ghost var size := tempBook.bookSize;
      var i := 0;
      while i < bookSize
        invariant 0 <= i <= bookSize
        invariant tempBook != this && tempBook.buckets != buckets
        invariant buckets[..i] == EmptyTable(i)
        invariant forall m :: i <= m < bookSize ==> buckets[m] == start[m]
        invariant tempBook.Valid()
        invariant tempBook.buckets == old(tempBook.buckets) && tempBook.bookSize == size
        invariant tempBook.Chains() == InsertAll(EmptyTable(size), Flatten(start[..i]))
        invariant tempBook.itemCount == |Flatten(start[..i])|
      {
        var hashNode := buckets[i];
        buckets[i] := [];
        assert buckets[..i + 1] == EmptyTable(i + 1);
        InsertAllPrefixStep(start, i, size);
        tempBook.AddChain(hashNode);
        i := i + 1;
      }
      assert start[..bookSize] == start;
      assert buckets[..bookSize] == buckets[..];
    }

    /** The second phase of Expand: this book takes tempBook's size and a fresh, empty array,
        and every chain of tempBook, in slot order, is re-added entry by entry. */
    method RefillFrom(tempBook: HuffmanCodeBook)
      requires tempBook.Valid() && tempBook != this
      modifies this
      ensures Valid() && fresh(buckets)
      ensures bookSize == tempBook.bookSize && itemCount == tempBook.itemCount
      ensures Chains() == Rehash(tempBook.Chains(), bookSize)
      decreases 1, 1
    {
      ghost var temp := tempBook.Chains();
      itemCount := 0;
      bookSize := tempBook.bookSize;
      buckets := new Chain[bookSize](_ => []);
      assert buckets[..] == EmptyTable(bookSize);
      FlattenEmptyTable(bookSize);
      var i := 0;
      while i < bookSize
        invariant 0 <= i <= bookSize == tempBook.bookSize
        invariant Valid() && fresh(buckets)
        invariant Chains() == InsertAll(EmptyTable(bookSize), Flatten(temp[..i]))
        invariant itemCount == |Flatten(temp[..i])|
      {
        var hashNode := tempBook.buckets[i];
        InsertAllPrefixStep(temp, i, bookSize);
        AddChain(hashNode);
        i := i + 1;
      }
      assert temp[..bookSize] == temp;
    }
  }

  /** The keys of a run of entries, in order. */
  function KeysOf(es: Chain): (ks: seq<char>)
    ensures |ks| == |es|
  {
    seq(|es|, j requires 0 <= j < |es| => es[j].key)
  }
}

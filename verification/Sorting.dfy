/** Byte-wise lexicographic order and the sorted listing of a set, as deterministic iteration needs it. */
module Sorting {
  import opened EvmTypes

  /** `bytes.Compare(a, b) < 0`. */
  predicate Less(a: Bytes, b: Bytes) {
    b != [] && (a == [] || a[0] < b[0] || (a[0] == b[0] && Less(a[1..], b[1..])))
  }

  lemma LessTotal(a: Bytes, b: Bytes)
    ensures Less(a, b) || a == b || Less(b, a)
  {
    if a != [] && b != [] && a[0] == b[0] {
      LessTotal(a[1..], b[1..]);
      assert a == [a[0]] + a[1..] && b == [b[0]] + b[1..];
    }
  }

  lemma {:induction false} LessTransitive(a: Bytes, b: Bytes, c: Bytes)
    requires Less(a, b) && Less(b, c)
    ensures Less(a, c)
  {
    if a != [] && a[0] == b[0] == c[0] {
      LessTransitive(a[1..], b[1..], c[1..]);
    }
  }

  lemma {:induction false} LessIrreflexive(a: Bytes)
    ensures !Less(a, a)
  {
    if a != [] {
      LessIrreflexive(a[1..]);
    }
  }

  lemma HeadFirst(b: Bytes)
    requires b != []
    ensures BigEndian(b) == b[0] as int * Power256(|b| - 1) + BigEndian(b[1..])
  {
    hide BigEndian, Power256;
    BigEndianConcat([b[0]], b[1..]);
    assert b == [b[0]] + b[1..];
    OneByte(b[0]);
  }

  lemma OneByte(x: byte)
    ensures BigEndian([x]) == x as int
  {
    assert [x][..0] == [];
    assert BigEndian([]) == 0;
  }

  lemma HeadDecides(x: nat, y: nat, p: nat, s: nat, t: nat)
    requires x < y && s < p
    ensures x * p + s < y * p + t
  {
    assert y * p == x * p + (y - x) * p;
    assert (y - x) * p >= p by {
      assert (y - x) * p == (y - x - 1) * p + p;
    }
  }

  /** On words of the same length the order is that of the numbers they stand for. */
  lemma {:induction false} LessIsNumeric(a: Bytes, b: Bytes)
    requires |a| == |b|
    ensures Less(a, b) <==> BigEndian(a) < BigEndian(b)
  {
    if a != [] {
      var p := Power256(|a| - 1);
      HeadFirst(a);
      HeadFirst(b);
      BigEndianBounded(a[1..]);
      BigEndianBounded(b[1..]);
      LessIsNumeric(a[1..], b[1..]);
      if a[0] < b[0] {
        HeadDecides(a[0] as int, b[0] as int, p, BigEndian(a[1..]), BigEndian(b[1..]));
      } else if b[0] < a[0] {
        HeadDecides(b[0] as int, a[0] as int, p, BigEndian(b[1..]), BigEndian(a[1..]));
      }
    }
  }

  /** Strictly increasing, hence without repetition. */
  ghost predicate Sorted(items: seq<Word>) {
    forall i, j :: 0 <= i < j < |items| ==> Less(items[i].bytes, items[j].bytes)
  }

  lemma SortedDistinct(items: seq<Word>)
    requires Sorted(items)
    ensures forall i, j :: 0 <= i < j < |items| ==> items[i] != items[j]
  {
    forall i, j | 0 <= i < j < |items| ensures items[i] != items[j] {
      LessIrreflexive(items[i].bytes);
    }
  }

  /** The place of a new item in a sorted list. */
  method Place(items: seq<Word>, x: Word) returns (at: nat)
    requires Sorted(items) && x !in items
    ensures at <= |items|
    ensures forall i :: 0 <= i < at ==> Less(items[i].bytes, x.bytes)
    ensures forall i :: at <= i < |items| ==> Less(x.bytes, items[i].bytes)
  {
    at := 0;
    while at < |items| && Less(items[at].bytes, x.bytes)
      invariant at <= |items|
      invariant forall i :: 0 <= i < at ==> Less(items[i].bytes, x.bytes)
    {
      at := at + 1;
    }
    if at < |items| {
      LessTotal(items[at].bytes, x.bytes);
      forall i | at <= i < |items| ensures Less(x.bytes, items[i].bytes) {
        if i > at {
          LessTransitive(x.bytes, items[at].bytes, items[i].bytes);
        }
      }
    }
  }

  /** Lists a set of words in ascending order. */
  method SortedKeys(all: set<Word>) returns (items: seq<Word>)
    ensures items == SortedOf(all)
  {
    items := [];
    var todo := all;
    while todo != {}
      invariant todo <= all && Sorted(items)
      invariant forall x :: x in items <==> x in all && x !in todo
      decreases |todo|
    {
      var x :| x in todo;
      var at := Place(items, x);
      ghost var before := items;
      items := items[..at] + [x] + items[at..];
      forall i, j | 0 <= i < j < |items| ensures Less(items[i].bytes, items[j].bytes) {
        assert i < at ==> items[i] == before[i];
        assert i > at ==> items[i] == before[i - 1];
        assert j < at ==> items[j] == before[j];
        assert j > at ==> items[j] == before[j - 1];
      }
      forall y ensures y in items <==> y in before || y == x {
        assert items[at] == x;
        assert before == before[..at] + before[at..];
      }
      todo := todo - {x};
    }
    SortedUnique(items, SortedOf(all));
  }

  // ---- the listing is determined by the set ----

  ghost function Insert(items: seq<Word>, x: Word): seq<Word> {
    if items == [] || Less(x.bytes, items[0].bytes) then [x] + items else [items[0]] + Insert(items[1..], x)
  }

  lemma {:induction false} InsertSorted(items: seq<Word>, x: Word)
    requires Sorted(items) && x !in items
    ensures Sorted(Insert(items, x))
    ensures forall y :: y in Insert(items, x) <==> y in items || y == x
    decreases |items|
  {
    if items == [] {
    } else if Less(x.bytes, items[0].bytes) {
      forall i | 0 <= i < |items| ensures Less(x.bytes, items[i].bytes) {
        if i > 0 {
          LessTransitive(x.bytes, items[0].bytes, items[i].bytes);
        }
      }
    } else {
      LessTotal(x.bytes, items[0].bytes);
      var rest := Insert(items[1..], x);
      InsertSorted(items[1..], x);
      forall y | y in rest ensures Less(items[0].bytes, y.bytes) {
      }
      forall y ensures y in items <==> y == items[0] || y in items[1..] {
      }
    }
  }

  /** The ascending listing of a set. */
  ghost function SortedOf(all: set<Word>): (items: seq<Word>)
    ensures Sorted(items)
    ensures forall x :: x in items <==> x in all
  {
    if all == {} then []
    else
      var x :| x in all;
      var rest := SortedOf(all - {x});
      InsertSorted(rest, x);
      Insert(rest, x)
  }

  /** A set has one ascending listing, so iterating in ascending order is deterministic. */
  lemma {:induction false} SortedUnique(a: seq<Word>, b: seq<Word>)
    requires Sorted(a) && Sorted(b) && forall x :: x in a <==> x in b
    ensures a == b
    decreases |a|
  {
    if a == [] {
      assert forall i :: 0 <= i < |b| ==> b[i] in b;
    } else {
      assert a[0] in b;
      assert b[0] in a;
      var i :| 0 <= i < |b| && b[i] == a[0];
      var j :| 0 <= j < |a| && a[j] == b[0];
      if i > 0 && j > 0 {
        LessTransitive(a[0].bytes, b[0].bytes, a[0].bytes);
        LessIrreflexive(a[0].bytes);
        assert false;
      }
      SortedDistinct(a);
      SortedDistinct(b);
      forall x ensures x in a[1..] <==> x in b[1..] {
        Tail(a, x);
        Tail(b, x);
      }
      SortedUnique(a[1..], b[1..]);
      assert a == [a[0]] + a[1..] && b == [b[0]] + b[1..];
    }
  }

  lemma Tail(a: seq<Word>, x: Word)
    requires a != [] && forall i, j :: 0 <= i < j < |a| ==> a[i] != a[j]
    ensures x in a[1..] <==> x in a && x != a[0]
  {
    if x in a[1..] {
      var i :| 0 <= i < |a[1..]| && a[1..][i] == x;
      assert a[i + 1] == x;
    }
  }

  /** Listings of words of one length hold words of that length. */
  lemma ListedLength(all: set<Word>, n: nat)
    requires forall x :: x in all ==> |x.bytes| == n
    ensures forall i :: 0 <= i < |SortedOf(all)| ==> |SortedOf(all)[i].bytes| == n
  {
    var items := SortedOf(all);
    forall i | 0 <= i < |items| ensures |items[i].bytes| == n {
      assert items[i] in items;
    }
  }
}

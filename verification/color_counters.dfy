/**
 `updateColorCounters` of frontend/js/colorCounters.js without the DOM:
 count each character of the pixel string in a `Map` (keys in order of first
 appearance), sort the entries by count, highest first, with the stable
 `Array.prototype.sort`, and star the first three rows gold, silver and
 bronze.
 */
module ColorCounters {
  import opened Wrappers

  /** One `[color, count]` pair of the map. */
  datatype Entry = Entry(color: char, count: nat)

  /** The colours of the entries, in order. */
  function Colors(es: seq<Entry>): (r: seq<char>)
    ensures |r| == |es|
    ensures forall k :: 0 <= k < |es| ==> r[k] == es[k].color
  {
    seq(|es|, k requires 0 <= k < |es| => es[k].color)
  }

  predicate DistinctColors(es: seq<Entry>) {
    forall i, j :: 0 <= i < j < |es| ==> es[i].color != es[j].color
  }

  /** The count recorded for `c`, summed over every entry of that colour (0 when there is none). */
  function CountOf(es: seq<Entry>, c: char): nat
    decreases |es|
  {
    if |es| == 0 then 0
    else (if es[0].color == c then es[0].count else 0) + CountOf(es[1..], c)
  }

  /** The sum of all counts. */
  function Total(es: seq<Entry>): nat
    decreases |es|
  {
    if |es| == 0 then 0 else es[0].count + Total(es[1..])
  }

  /** The characters of `s`, each once, in order of first appearance. */
  function FirstOccurrences(s: string): seq<char>
    decreases |s|
  {
    if |s| == 0 then []
    else
      var seen := FirstOccurrences(s[..|s| - 1]);
      if s[|s| - 1] in seen then seen else seen + [s[|s| - 1]]
  }

  /** `colorCounts.set(color, (colorCounts.get(color) || 0) + 1)`. */
  function Bump(es: seq<Entry>, c: char): seq<Entry>
    decreases |es|
  {
    if |es| == 0 then [Entry(c, 1)]
    else if es[0].color == c then [es[0].(count := es[0].count + 1)] + es[1..]
    else [es[0]] + Bump(es[1..], c)
  }

  /** The map after the `for … of` loop over the pixel string. */
  function Tally(s: string): seq<Entry>
    decreases |s|
  {
    if |s| == 0 then [] else Bump(Tally(s[..|s| - 1]), s[|s| - 1])
  }

  lemma {:induction false} BumpCountOf(es: seq<Entry>, c: char, d: char)
    ensures CountOf(Bump(es, c), d) == CountOf(es, d) + (if d == c then 1 else 0)
    decreases |es|
  {
    if |es| > 0 && es[0].color != c {
      BumpCountOf(es[1..], c, d);
      assert Bump(es, c)[1..] == Bump(es[1..], c);
    } else if |es| > 0 {
      assert Bump(es, c)[1..] == es[1..];
    }
  }

  lemma {:induction false} BumpTotal(es: seq<Entry>, c: char)
    ensures Total(Bump(es, c)) == Total(es) + 1
    decreases |es|
  {
    if |es| > 0 && es[0].color != c {
      BumpTotal(es[1..], c);
      assert Bump(es, c)[1..] == Bump(es[1..], c);
    } else if |es| > 0 {
      assert Bump(es, c)[1..] == es[1..];
    }
  }

  /** A new colour is appended; a known one keeps its place. */
  lemma {:induction false} BumpColors(es: seq<Entry>, c: char)
    ensures Colors(Bump(es, c)) == if c in Colors(es) then Colors(es) else Colors(es) + [c]
    decreases |es|
  {
    if |es| > 0 {
      ColorsCons(es[0], es[1..]);
      assert es == [es[0]] + es[1..];
      if es[0].color != c {
        BumpColors(es[1..], c);
        ColorsCons(es[0], Bump(es[1..], c));
      } else {
        ColorsCons(es[0].(count := es[0].count + 1), es[1..]);
      }
    }
  }

  lemma ColorsCons(e: Entry, es: seq<Entry>)
    ensures Colors([e] + es) == [e.color] + Colors(es)
  {
  }

  lemma {:induction false} BumpPositive(es: seq<Entry>, c: char)
    requires forall k :: 0 <= k < |es| ==> es[k].count >= 1
    ensures forall k :: 0 <= k < |Bump(es, c)| ==> Bump(es, c)[k].count >= 1
    decreases |es|
  {
    if |es| > 0 && es[0].color != c {
      BumpPositive(es[1..], c);
      assert Bump(es, c) == [es[0]] + Bump(es[1..], c);
    }
  }

  /** Distinct colours, as a fact about the colour sequence. */
  lemma DistinctFromColors(es: seq<Entry>, cs: seq<char>)
    requires Colors(es) == cs
    requires forall i, j :: 0 <= i < j < |cs| ==> cs[i] != cs[j]
    ensures DistinctColors(es)
  {
  }

  lemma {:induction false} FirstOccurrencesDistinct(s: string)
    ensures forall i, j :: 0 <= i < j < |FirstOccurrences(s)| ==> FirstOccurrences(s)[i] != FirstOccurrences(s)[j]
    ensures forall c :: c in FirstOccurrences(s) <==> c in s
    decreases |s|
  {
    if |s| > 0 {
      var init := s[..|s| - 1];
      FirstOccurrencesDistinct(init);
      assert s == init + [s[|s| - 1]];
    }
  }

  /** The tally's colours are the characters of the string in order of first appearance, so they are distinct. */
  lemma {:induction false} TallyColors(s: string)
    ensures Colors(Tally(s)) == FirstOccurrences(s)
    ensures DistinctColors(Tally(s))
    decreases |s|
  {
    if |s| > 0 {
      TallyColors(s[..|s| - 1]);
      BumpColors(Tally(s[..|s| - 1]), s[|s| - 1]);
    }
    FirstOccurrencesDistinct(s);
    DistinctFromColors(Tally(s), FirstOccurrences(s));
  }

  /** Each character's recorded count is its number of occurrences; every count is positive; the counts add up to the length. */
  lemma {:induction false} TallyCounts(s: string)
    ensures forall c :: CountOf(Tally(s), c) == multiset(s)[c]
    ensures forall k :: 0 <= k < |Tally(s)| ==> Tally(s)[k].count >= 1
    ensures Total(Tally(s)) == |s|
    decreases |s|
  {
    if |s| > 0 {
      var init, last := s[..|s| - 1], s[|s| - 1];
      TallyCounts(init);
      assert s == init + [last];
      BumpTotal(Tally(init), last);
      BumpPositive(Tally(init), last);
      forall c ensures CountOf(Tally(s), c) == multiset(s)[c] {
        BumpCountOf(Tally(init), last, c);
      }
    }
  }

  /**
   The tally has one entry per distinct character, in order of first
   appearance; each entry's count is the number of occurrences of its
   character (so at least one), and the counts add up to the length.
   */
  lemma TallyCorrect(s: string)
    ensures Colors(Tally(s)) == FirstOccurrences(s)
    ensures DistinctColors(Tally(s))
    ensures forall c :: CountOf(Tally(s), c) == multiset(s)[c]
    ensures forall k :: 0 <= k < |Tally(s)| ==> Tally(s)[k].count >= 1
    ensures Total(Tally(s)) == |s|
  {
    TallyColors(s);
    TallyCounts(s);
  }

  /** With distinct colours, an entry's count is the count recorded for its colour. */
  lemma {:induction false} CountOfDistinct(es: seq<Entry>, k: nat)
    requires DistinctColors(es) && k < |es|
    ensures CountOf(es, es[k].color) == es[k].count
    decreases |es|
  {
    if k == 0 {
      CountOfAbsent(es[1..], es[0].color);
    } else {
      CountOfDistinct(es[1..], k - 1);
    }
  }

  lemma {:induction false} CountOfAbsent(es: seq<Entry>, c: char)
    requires forall k :: 0 <= k < |es| ==> es[k].color != c
    ensures CountOf(es, c) == 0
    decreases |es|
  {
    if |es| > 0 {
      CountOfAbsent(es[1..], c);
    }
  }

  /** Counts never increase along the sequence. */
  predicate ByCountDescending(es: seq<Entry>) {
    forall i, j :: 0 <= i < j < |es| ==> es[i].count >= es[j].count
  }

  /** The entries with count `n`, in their order. */
  function WithCount(es: seq<Entry>, n: nat): seq<Entry>
    decreases |es|
  {
    if |es| == 0 then []
    else (if es[0].count == n then [es[0]] else []) + WithCount(es[1..], n)
  }

  /** Places `e` after every entry whose count is at least its own. */
  function Insert(sorted: seq<Entry>, e: Entry): seq<Entry>
    decreases |sorted|
  {
    if |sorted| == 0 then [e]
    else if sorted[0].count < e.count then [e] + sorted
    else [sorted[0]] + Insert(sorted[1..], e)
  }

  /** `sort((a, b) => b[1] - a[1])`: a stable sort by count, highest first, as an insertion sort. */
  function SortByCount(es: seq<Entry>): seq<Entry>
    decreases |es|
  {
    if |es| == 0 then [] else Insert(SortByCount(es[..|es| - 1]), es[|es| - 1])
  }

  lemma {:induction false} InsertPermutes(sorted: seq<Entry>, e: Entry)
    ensures multiset(Insert(sorted, e)) == multiset(sorted) + multiset{e}
    decreases |sorted|
  {
    if |sorted| > 0 && sorted[0].count >= e.count {
      InsertPermutes(sorted[1..], e);
      assert sorted == [sorted[0]] + sorted[1..];
    }
  }

  /** Inserting keeps every count at most a bound that holds of the sequence and of `e`. */
  lemma {:induction false} InsertBounded(sorted: seq<Entry>, e: Entry, b: nat)
    requires forall k :: 0 <= k < |sorted| ==> sorted[k].count <= b
    requires e.count <= b
    ensures forall k :: 0 <= k < |Insert(sorted, e)| ==> Insert(sorted, e)[k].count <= b
    decreases |sorted|
  {
    if |sorted| > 0 && sorted[0].count >= e.count {
      InsertBounded(sorted[1..], e, b);
      assert Insert(sorted, e) == [sorted[0]] + Insert(sorted[1..], e);
    }
  }

  lemma {:induction false} InsertSorted(sorted: seq<Entry>, e: Entry)
    requires ByCountDescending(sorted)
    ensures ByCountDescending(Insert(sorted, e))
    decreases |sorted|
  {
    if |sorted| > 0 && sorted[0].count >= e.count {
      var head, rest := sorted[0], Insert(sorted[1..], e);
      InsertSorted(sorted[1..], e);
      InsertBounded(sorted[1..], e, head.count);
      var r := [head] + rest;
      assert Insert(sorted, e) == r;
      forall i, j | 0 <= i < j < |r| ensures r[i].count >= r[j].count {
        if i > 0 {
          assert r[i] == rest[i - 1] && r[j] == rest[j - 1];
        } else {
          assert r[j] == rest[j - 1];
        }
      }
    }
  }

  /** Inserting into a sorted sequence appends `e` to the entries of its count and leaves the others as they were. */
  lemma {:induction false} InsertWithCount(sorted: seq<Entry>, e: Entry, n: nat)
    requires ByCountDescending(sorted)
    ensures WithCount(Insert(sorted, e), n) == WithCount(sorted, n) + (if e.count == n then [e] else [])
    decreases |sorted|
  {
    if |sorted| == 0 {
    } else if sorted[0].count < e.count {
      assert Insert(sorted, e) == [e] + sorted;
      assert Insert(sorted, e)[1..] == sorted;
      if e.count == n {
        WithCountBelow(sorted, n);
      }
    } else {
      InsertWithCount(sorted[1..], e, n);
      assert Insert(sorted, e)[1..] == Insert(sorted[1..], e);
    }
  }

  /** A sorted sequence that starts below `n` has no entry of count `n`. */
  lemma {:induction false} WithCountBelow(sorted: seq<Entry>, n: nat)
    requires ByCountDescending(sorted)
    requires |sorted| > 0 ==> sorted[0].count < n
    ensures WithCount(sorted, n) == []
    decreases |sorted|
  {
    if |sorted| > 0 {
      WithCountBelow(sorted[1..], n);
    }
  }

  lemma {:induction false} WithCountAppend(es: seq<Entry>, e: Entry, n: nat)
    ensures WithCount(es + [e], n) == WithCount(es, n) + (if e.count == n then [e] else [])
    decreases |es|
  {
    if |es| > 0 {
      WithCountAppend(es[1..], e, n);
      assert (es + [e])[1..] == es[1..] + [e];
    }
  }

  /**
   The sort returns a permutation of its input, highest count first, and is
   stable: the entries of any one count keep their original order.
   */
  lemma {:induction false} SortByCountCorrect(es: seq<Entry>)
    ensures ByCountDescending(SortByCount(es))
    ensures multiset(SortByCount(es)) == multiset(es)
    ensures forall n :: WithCount(SortByCount(es), n) == WithCount(es, n)
    decreases |es|
  {
    if |es| > 0 {
      var init, last := es[..|es| - 1], es[|es| - 1];
      SortByCountCorrect(init);
      InsertSorted(SortByCount(init), last);
      InsertPermutes(SortByCount(init), last);
      assert es == init + [last];
      forall n ensures WithCount(SortByCount(es), n) == WithCount(es, n) {
        InsertWithCount(SortByCount(init), last, n);
        WithCountAppend(init, last, n);
      }
    }
  }

  /** The star of a rank: gold `#FFD700`, silver `#C0C0C0`, bronze `#CD7F32`. */
  datatype Star = Gold | Silver | Bronze {
    function Color(): string {
      match this
      case Gold => "#FFD700"
      case Silver => "#C0C0C0"
      case Bronze => "#CD7F32"
    }
  }

  /** One counter element: its colour key, the count it shows, and its star. */
  datatype Row = Row(color: char, count: nat, star: Option<Star>)

  /** `if (i < 3) switch (i)`: the star of the row at position `i`. */
  function Rank(i: nat): Option<Star> {
    if i == 0 then Some(Gold) else if i == 1 then Some(Silver) else if i == 2 then Some(Bronze) else None
  }

  /** The counter elements, in the order they are appended to the container. */
  function UpdateColorCounters(pixels: string): (rows: seq<Row>)
    ensures |rows| == |SortByCount(Tally(pixels))|
    ensures forall i :: 0 <= i < |rows| ==>
              rows[i].color == SortByCount(Tally(pixels))[i].color && rows[i].count == SortByCount(Tally(pixels))[i].count
    ensures |rows| > 0 ==> rows[0].star == Some(Gold)
    ensures |rows| > 1 ==> rows[1].star == Some(Silver)
    ensures |rows| > 2 ==> rows[2].star == Some(Bronze)
    ensures forall i :: 3 <= i < |rows| ==> rows[i].star == None
  {
    var sorted := SortByCount(Tally(pixels));
    seq(|sorted|, i requires 0 <= i < |sorted| => Row(sorted[i].color, sorted[i].count, Rank(i)))
  }

  /**
   The rows of the counter: one per distinct character of the pixel string,
   each showing that character's number of occurrences, highest first, with
   the counts adding up to the string's length; the first row's colour is
   among the most frequent, and only the first three rows carry a star.
   */
  lemma CountersCorrect(pixels: string)
    ensures var rows := UpdateColorCounters(pixels);
            && (forall c :: c in pixels <==> exists i :: 0 <= i < |rows| && rows[i].color == c)
            && (forall i, j :: 0 <= i < j < |rows| ==> rows[i].color != rows[j].color)
            && (forall i :: 0 <= i < |rows| ==> rows[i].count == multiset(pixels)[rows[i].color])
            && (forall i, j :: 0 <= i < j < |rows| ==> rows[i].count >= rows[j].count)
            && (|rows| > 0 ==> forall c :: multiset(pixels)[c] <= rows[0].count)
  {
    var sorted := SortByCount(Tally(pixels));
    var rows := UpdateColorCounters(pixels);
    SortByCountCorrect(Tally(pixels));
    SortedTallyDistinct(pixels);
    SortedTallyCounts(pixels);
    SortedTallyCovers(pixels);
    if |rows| > 0 {
      forall c ensures multiset(pixels)[c] <= rows[0].count {
        if c in pixels {
          var i :| 0 <= i < |sorted| && sorted[i].color == c;
          assert rows[i].color == c;
        }
      }
    }
  }

  lemma SortedTallyDistinct(pixels: string)
    ensures DistinctColors(SortByCount(Tally(pixels)))
  {
    TallyCorrect(pixels);
    SortByCountCorrect(Tally(pixels));
    PermutationKeepsEntries(Tally(pixels), SortByCount(Tally(pixels)));
  }

  lemma SortedTallyCounts(pixels: string)
    ensures forall i :: 0 <= i < |SortByCount(Tally(pixels))| ==>
              && SortByCount(Tally(pixels))[i].color in pixels
              && SortByCount(Tally(pixels))[i].count == multiset(pixels)[SortByCount(Tally(pixels))[i].color]
  {
    var tally := Tally(pixels);
    var sorted := SortByCount(tally);
    TallyCorrect(pixels);
    FirstOccurrencesDistinct(pixels);
    SortByCountCorrect(tally);
    forall i | 0 <= i < |sorted| ensures sorted[i].color in pixels && sorted[i].count == multiset(pixels)[sorted[i].color] {
      assert sorted[i] in multiset(tally);
      var k :| 0 <= k < |tally| && tally[k] == sorted[i];
      assert Colors(tally)[k] == sorted[i].color;
      CountOfDistinct(tally, k);
    }
  }

  lemma SortedTallyCovers(pixels: string)
    ensures forall c :: c in pixels ==> exists i :: 0 <= i < |SortByCount(Tally(pixels))| && SortByCount(Tally(pixels))[i].color == c
  {
    var tally := Tally(pixels);
    var sorted := SortByCount(tally);
    TallyCorrect(pixels);
    FirstOccurrencesDistinct(pixels);
    SortByCountCorrect(tally);
    forall c | c in pixels ensures exists i :: 0 <= i < |sorted| && sorted[i].color == c {
      assert c in Colors(tally);
      var k :| 0 <= k < |tally| && tally[k].color == c;
      assert tally[k] in multiset(sorted);
      var i :| 0 <= i < |sorted| && sorted[i] == tally[k];
    }
  }

  /** A permutation of entries with distinct colours has distinct colours. */
  lemma PermutationKeepsEntries(es: seq<Entry>, ps: seq<Entry>)
    requires DistinctColors(es) && multiset(ps) == multiset(es)
    ensures DistinctColors(ps)
  {
    forall i, j | 0 <= i < j < |ps| ensures ps[i].color != ps[j].color {
      if ps[i].color == ps[j].color {
        assert ps[i] in multiset(es) && ps[j] in multiset(es);
        var a :| 0 <= a < |es| && es[a] == ps[i];
        var b :| 0 <= b < |es| && es[b] == ps[j];
        if a == b {
          SameEntryTwice(ps, i, j);
          DistinctOnce(es, ps[i]);
        }
        assert false;
      }
    }
  }

  /** An entry appearing at two positions occurs twice in the multiset. */
  lemma SameEntryTwice(ps: seq<Entry>, i: nat, j: nat)
    requires i < j < |ps| && ps[i] == ps[j]
    ensures multiset(ps)[ps[i]] >= 2
  {
    var x := ps[i];
    assert ps == ps[..i] + [x] + ps[i + 1..j] + [x] + ps[j + 1..];
  }

  /** With distinct colours, no entry occurs twice. */
  lemma {:induction false} DistinctOnce(es: seq<Entry>, x: Entry)
    requires DistinctColors(es)
    ensures multiset(es)[x] <= 1
    decreases |es|
  {
    if |es| > 0 {
      var rest := es[1..];
      assert es == [es[0]] + rest;
      DistinctOnce(rest, x);
      if es[0] == x {
        assert x !in rest;
      }
    }
  }
}

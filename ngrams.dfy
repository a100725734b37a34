/** The sliding-window n-gram counter `ngrams` of package ingest. */
module Ngrams {
  import opened GoInt

  /** `strings.Join(ws, sep)`: empty for no words, and the word itself for a single word. */
  function Join(ws: seq<string>, sep: string): (r: string)
    ensures ws == [] ==> r == ""
    ensures |ws| == 1 ==> r == ws[0]
  {
    if |ws| == 0 then "" else if |ws| == 1 then ws[0] else ws[0] + sep + Join(ws[1..], sep)
  }

  /** A joined list of words starts with its first word, ends with its last, and has the separator
      right after the first word when there are several. */
  lemma {:induction false} JoinAffixes(ws: seq<string>, sep: string)
    requires ws != []
    ensures var r := Join(ws, sep);
            |ws[0]| <= |r| && r[..|ws[0]|] == ws[0] &&
            |ws[|ws| - 1]| <= |r| && r[|r| - |ws[|ws| - 1]|..] == ws[|ws| - 1]
    ensures |ws| > 1 ==> var r := Join(ws, sep); |ws[0]| + |sep| <= |r| && r[|ws[0]|..|ws[0]| + |sep|] == sep
  {
    if |ws| > 1 {
      JoinAffixes(ws[1..], sep);
      var r, t := Join(ws, sep), Join(ws[1..], sep);
      var last := ws[|ws| - 1];
      assert ws[1..][|ws[1..]| - 1] == last;
      assert r == ws[0] + sep + t;
      assert r[|r| - |last|..] == t[|t| - |last|..];
    }
  }

  /** Reading a Go map: a missing key reads as the zero value. */
  function Get(m: map<string, Uint32>, k: string): (r: Uint32)
    ensures k !in m ==> r == 0
  {
    if k in m then m[k] else 0
  }

  /** How many windows the loop of `ngrams` visits for `n` words: one per start `j` with
      `j + size <= n`, except that with `size == 0` the loop index stops at `n - 1`. */
  function WindowCount(n: nat, size: nat): (r: nat)
    ensures size == 0 ==> r == n
    ensures size > 0 && r > 0 ==> (r - 1) + size <= n
    ensures size > 0 ==> n < r + size
  {
    if size == 0 then n else if size > n then 0 else n - size + 1
  }

  /** The gram of the window starting at word `j`: its `size` words joined with a space, so empty for
      an empty window and the word itself for a single word. */
  function Gram(words: seq<string>, size: nat, j: nat): (r: string)
    requires j + size <= |words|
    ensures size == 0 ==> r == ""
    ensures size == 1 ==> r == words[j]
  {
    Join(words[j..j + size], " ")
  }

  /** The grams of the first `k` windows, in window order. */
  function GramsUpTo(words: seq<string>, size: nat, k: nat): (gs: seq<string>)
    requires k <= WindowCount(|words|, size)
    ensures |gs| == k
  {
    if k == 0 then [] else GramsUpTo(words, size, k - 1) + [Gram(words, size, k - 1)]
  }

  /** The grams of all windows, in window order: one per window. */
  function Grams(words: seq<string>, size: nat): (gs: seq<string>)
    ensures |gs| == WindowCount(|words|, size)
  {
    GramsUpTo(words, size, WindowCount(|words|, size))
  }

  /** The `j`-th of the first `k` grams is the gram of the window starting at `j`. */
  lemma {:induction false} GramsUpToAt(words: seq<string>, size: nat, k: nat)
    requires k <= WindowCount(|words|, size)
    ensures forall j :: 0 <= j < k ==> j + size <= |words| && GramsUpTo(words, size, k)[j] == Gram(words, size, j)
  {
    if k > 0 {
      GramsUpToAt(words, size, k - 1);
    }
  }

  /** The map after `count[g] += inc` (on uint32) for each gram `g` of `gs`, in order: the last gram
      met is a key, and no gram at all leaves the map as it was. */
  function AddAll(count: map<string, Uint32>, gs: seq<string>, inc: Uint32): (r: map<string, Uint32>)
    ensures gs != [] ==> gs[|gs| - 1] in r
    ensures gs == [] ==> r == count
  {
    if gs == [] then count
    else
      var m := AddAll(count, gs[..|gs| - 1], inc);
      var g := gs[|gs| - 1];
      m[g := AddUint32(Get(m, g), inc)]
  }

  /** How often `g` occurs in `gs`. */
  function Occurrences(gs: seq<string>, g: string): nat
  {
    if gs == [] then 0 else Occurrences(gs[..|gs| - 1], g) + if gs[|gs| - 1] == g then 1 else 0
  }

  /** The starts below `k` of the windows whose gram is `g`. */
  ghost function StartsBelow(words: seq<string>, size: nat, k: nat, g: string): (js: set<nat>)
    requires k <= WindowCount(|words|, size)
    ensures forall j :: j in js ==> j < k
  {
    if k == 0 then {} else StartsBelow(words, size, k - 1, g) + if Gram(words, size, k - 1) == g then {k - 1} else {}
  }

  /** The starts of the windows whose gram is `g`. */
  ghost function WindowStarts(words: seq<string>, size: nat, g: string): set<nat>
  {
    StartsBelow(words, size, WindowCount(|words|, size), g)
  }

  /** A start is listed exactly when its window is among the first `k` and joins to `g`. */
  lemma {:induction false} StartsBelowMembers(words: seq<string>, size: nat, k: nat, g: string, j: nat)
    requires k <= WindowCount(|words|, size)
    ensures j in StartsBelow(words, size, k, g) <==> j < k && j + size <= |words| && Gram(words, size, j) == g
  {
    if k > 0 {
      StartsBelowMembers(words, size, k - 1, g, j);
    }
  }

  /** Folding the additions keeps the old keys and adds the grams, and no other key. */
  lemma {:induction false} AddAllKeys(count: map<string, Uint32>, gs: seq<string>, inc: Uint32, g: string)
    ensures g in AddAll(count, gs, inc) <==> g in count || g in gs
  {
    if gs != [] {
      var init := gs[..|gs| - 1];
      AddAllKeys(count, init, inc, g);
      assert gs == init + [gs[|gs| - 1]];
    }
  }

  /** Folding the additions: each key ends up `inc` times its number of occurrences above its old value,
      modulo 2^32. */
  lemma {:induction false} AddAllAt(count: map<string, Uint32>, gs: seq<string>, inc: Uint32, g: string)
    ensures Get(AddAll(count, gs, inc), g) == (Get(count, g) + Occurrences(gs, g) * inc) % TWO32
  {
    if gs != [] {
      var init := gs[..|gs| - 1];
      AddAllAt(count, init, inc, g);
      AddAllLast(count, gs, inc, g, Get(AddAll(count, init, inc), g), Occurrences(init, g));
    }
  }

  /** The last addition of the fold, given the counter before it. */
  lemma AddAllLast(count: map<string, Uint32>, gs: seq<string>, inc: Uint32, g: string, prev: Uint32, o: nat)
    requires gs != []
    requires prev == Get(AddAll(count, gs[..|gs| - 1], inc), g) && o == Occurrences(gs[..|gs| - 1], g)
    requires prev == (Get(count, g) + o * inc) % TWO32
    ensures Get(AddAll(count, gs, inc), g) == (Get(count, g) + Occurrences(gs, g) * inc) % TWO32
  {
    var m, last := AddAll(count, gs[..|gs| - 1], inc), gs[|gs| - 1];
    assert AddAll(count, gs, inc) == m[last := AddUint32(Get(m, last), inc)];
    if last == g {
      assert Occurrences(gs, g) == o + 1;
      assert Get(AddAll(count, gs, inc), g) == (prev + inc) % TWO32;
      AddOnce(prev, Get(count, g), o, inc);
    } else {
      assert Occurrences(gs, g) == o;
      assert Get(AddAll(count, gs, inc), g) == prev;
    }
  }

  /** One more addition of `inc` to a counter that already holds `c + o * inc`, modulo 2^32. */
  lemma AddOnce(x: int, c: int, o: int, inc: int)
    requires x == (c + o * inc) % TWO32
    ensures (x + inc) % TWO32 == (c + (o + 1) * inc) % TWO32
  {
    Mod32Add(c + o * inc, inc);
    assert (o + 1) * inc == o * inc + inc;
  }

  /** Counting occurrences among the first `k` grams is counting the window starts below `k`. */
  lemma {:induction false} OccurrencesAreStarts(words: seq<string>, size: nat, k: nat, g: string)
    requires k <= WindowCount(|words|, size)
    ensures Occurrences(GramsUpTo(words, size, k), g) == |StartsBelow(words, size, k, g)|
  {
    if k > 0 {
      OccurrencesAreStarts(words, size, k - 1, g);
      var gs := GramsUpTo(words, size, k);
      assert gs[..|gs| - 1] == GramsUpTo(words, size, k - 1);
      var s := StartsBelow(words, size, k - 1, g);
      if Gram(words, size, k - 1) == g {
        assert StartsBelow(words, size, k, g) == s + {k - 1};
        AddNew(s, k - 1);
      } else {
        assert StartsBelow(words, size, k, g) == s;
      }
    }
  }

  /** Adding an element bounding the set from above adds one to its size. */
  lemma AddNew(s: set<nat>, x: nat)
    requires forall j :: j in s ==> j < x
    ensures |s + {x}| == |s| + 1
  {
    assert x !in s;
  }

  /** A gram is among the first `k` exactly when one of those windows joins to it. */
  lemma {:induction false} GramsUpToAreStarts(words: seq<string>, size: nat, k: nat, g: string)
    requires k <= WindowCount(|words|, size)
    ensures g in GramsUpTo(words, size, k) <==> StartsBelow(words, size, k, g) != {}
  {
    if k > 0 {
      GramsUpToAreStarts(words, size, k - 1, g);
      if Gram(words, size, k - 1) == g {
        assert k - 1 in StartsBelow(words, size, k, g);
      }
    }
  }

  /** The ordered fold over the grams, stated as one count per window: after the calls, `count[g]` is its old
      value plus `size` for each window whose words join to `g`, in uint32 arithmetic, and a key is present
      exactly when it was before or is a window's gram. */
  lemma NgramsCount(words: seq<string>, size: nat, count: map<string, Uint32>, g: string)
    ensures Get(AddAll(count, Grams(words, size), ToUint32(size)), g)
            == (Get(count, g) + |WindowStarts(words, size, g)| * size) % TWO32
    ensures g in AddAll(count, Grams(words, size), ToUint32(size)) <==> g in count || WindowStarts(words, size, g) != {}
  {
    var k := WindowCount(|words|, size);
    var gs, starts := GramsUpTo(words, size, k), StartsBelow(words, size, k, g);
    assert Grams(words, size) == gs && WindowStarts(words, size, g) == starts;
    OccurrencesAreStarts(words, size, k, g);
    GramsUpToAreStarts(words, size, k, g);
    CountFromStarts(count, gs, g, starts, size);
  }

  /** Adding `uint32(size)` once per occurrence, with one occurrence per start, is adding `size` per
      start, modulo 2^32; the gram is a new key exactly when it occurs. */
  lemma CountFromStarts(count: map<string, Uint32>, gs: seq<string>, g: string, starts: set<nat>, size: nat)
    requires Occurrences(gs, g) == |starts| && (g in gs <==> starts != {})
    ensures Get(AddAll(count, gs, ToUint32(size)), g) == (Get(count, g) + |starts| * size) % TWO32
    ensures g in AddAll(count, gs, ToUint32(size)) <==> g in count || starts != {}
  {
    var inc, o := ToUint32(size), |starts|;
    AddAllAt(count, gs, inc, g);
    Rescale(Get(AddAll(count, gs, inc), g), Get(count, g), o, inc, size);
    AddAllKeys(count, gs, inc, g);
  }

  /** A key that is no window's gram keeps its presence and its value. */
  lemma NgramsFrame(words: seq<string>, size: nat, count: map<string, Uint32>, g: string)
    requires g !in Grams(words, size)
    ensures g in AddAll(count, Grams(words, size), ToUint32(size)) <==> g in count
    ensures Get(AddAll(count, Grams(words, size), ToUint32(size)), g) == Get(count, g)
  {
    NgramsCount(words, size, count, g);
    GramsUpToAreStarts(words, size, WindowCount(|words|, size), g);
    assert |WindowStarts(words, size, g)| == 0;
  }

  /** Counting with the 32-bit increment is counting with the full one, modulo 2^32. */
  lemma Rescale(x: int, c: int, o: nat, inc: int, size: int)
    requires x == (c + o * inc) % TWO32 && inc == size % TWO32
    ensures x == (c + o * size) % TWO32
  {
    Mod32Scale(c, o, size);
  }

  /** Handling window `k` adds its gram to the fold of the earlier windows. */
  lemma AddAllNext(count: map<string, Uint32>, words: seq<string>, size: nat, k: nat, inc: Uint32)
    requires k < WindowCount(|words|, size)
    ensures k + size <= |words|
    ensures var m := AddAll(count, GramsUpTo(words, size, k), inc);
            var g := Gram(words, size, k);
            AddAll(count, GramsUpTo(words, size, k + 1), inc) == m[g := AddUint32(Get(m, g), inc)]
  {
    var gs := GramsUpTo(words, size, k + 1);
    assert gs[..|gs| - 1] == GramsUpTo(words, size, k);
  }

  /** The words between the loop's slice bounds form window `k`. */
  lemma GramAt(words: seq<string>, size: nat, lo: nat, hi: nat, k: nat)
    requires lo == k && hi == k + size && hi <= |words|
    ensures Join(words[lo..hi], " ") == Gram(words, size, k)
  {
  }

  /** How many windows the loop has handled before index `i`: those with `offset <= i' < i` and
      `i' + size - offset <= n`, where `offset == size / 2`. At most one per index, and no more than
      the windows there are. */
  function Visited(i: nat, size: nat, n: nat): (r: nat)
    ensures r <= i
    ensures i <= n ==> r <= WindowCount(n, size)
  {
    var offset := size / 2;
    if i <= offset || n + 1 < size then 0
    else if i - offset < n - size + 1 then i - offset
    else n - size + 1
  }

  /** One step of the loop index: a skipped index leaves the window count alone, a used one is
      the next window's start plus `offset`. */
  lemma VisitedStep(i: nat, size: nat, n: nat)
    requires i < n
    ensures Visited(i, size, n) <= WindowCount(n, size)
    ensures i < size / 2 || i + size - size / 2 > n ==> Visited(i + 1, size, n) == Visited(i, size, n)
    ensures !(i < size / 2 || i + size - size / 2 > n) ==>
              Visited(i, size, n) == i - size / 2 && Visited(i + 1, size, n) == Visited(i, size, n) + 1
              && Visited(i + 1, size, n) <= WindowCount(n, size)
  {
  }

  /** `ngrams(words, size, count)`. Go mutates the map in place; the model returns the map as it is
      afterwards. A negative `size` makes the first slice expression go out of range (a Go panic),
      before the map is touched. Otherwise every window of `size` consecutive words adds `size` to
      the entry of its gram and nothing else changes. */
  method Ngrams(words: seq<string>, size: int, count: map<string, Uint32>)
    returns (count': map<string, Uint32>, panicked: bool)
    ensures panicked <==> size < 0 && |words| > 0
    ensures size < 0 ==> count' == count
    ensures size >= 0 ==> count' == AddAll(count, Grams(words, size), ToUint32(size))
    ensures size >= 0 ==> forall g :: Get(count', g) == (Get(count, g) + |WindowStarts(words, size, g)| * size) % TWO32
    ensures size >= 0 ==> forall g :: g in count' <==> g in count || WindowStarts(words, size, g) != {}
    ensures size > |words| ==> count' == count
  {
    var offset := Quo(size, 2);
    var max := |words|;
    count' := count;
    panicked := false;
    var i := 0;
    ghost var k := 0;
    while i < |words|
      invariant 0 <= i <= |words|
      invariant size < 0 ==> i == 0 && count' == count
      invariant size >= 0 ==> offset == size / 2
      invariant size >= 0 ==> k == Visited(i, size, max) <= WindowCount(max, size)
      invariant size >= 0 ==> count' == AddAll(count, GramsUpTo(words, size, k), ToUint32(size))
    {
      if size >= 0 {
        VisitedStep(i, size, max);
      }
      if i < offset || i + size - offset > max {
        i := i + 1;
        continue;
      }
      var lo, hi := i - offset, i + size - offset;
      if !(0 <= lo <= hi <= max) {
        // Go: slice bounds out of range
        panicked := true;
        return;
      }
      var gram := Join(words[lo..hi], " ");
      assert lo == k && hi == k + size;
      GramAt(words, size, lo, hi, k);
      AddAllNext(count, words, size, k, ToUint32(size));
      count' := count'[gram := AddUint32(Get(count', gram), ToUint32(size))];
      i, k := i + 1, k + 1;
    }
    if size >= 0 {
      assert k == WindowCount(max, size);
      forall g ensures Get(count', g) == (Get(count, g) + |WindowStarts(words, size, g)| * size) % TWO32
        && (g in count' <==> g in count || WindowStarts(words, size, g) != {})
      {
        NgramsCount(words, size, count, g);
      }
      if size > |words| {
        assert Grams(words, size) == [];
      }
    }
  }
}

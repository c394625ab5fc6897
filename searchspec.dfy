/**
 * The value-level meaning of the editor's search: JavaScript's `indexOf` and `substring`
 * on strings, the greedy left-to-right scan that repeated `indexOf` calls perform, the
 * occurrences of a term across the content blocks of a page, the before / match / after
 * split used to highlight one of them, and the wrapping cursor that walks through them.
 */
module SearchSpec {

  // ---- Strings ----

  /** `pat` occurs in `text` starting at position `k`. */
  predicate MatchAt(text: string, pat: string, k: int) {
    0 <= k && k + |pat| <= |text| && forall d :: 0 <= d < |pat| ==> text[k + d] == pat[d]
  }

  /** A match is a slice of the text equal to the term. */
  lemma MatchAtSlice(text: string, pat: string, k: int)
    ensures MatchAt(text, pat, k) <==> 0 <= k && k + |pat| <= |text| && text[k..k + |pat|] == pat
  {
    if 0 <= k && k + |pat| <= |text| && text[k..k + |pat|] == pat {
      forall d | 0 <= d < |pat|
        ensures text[k + d] == pat[d]
      {
        assert text[k..k + |pat|][d] == text[k + d];
      }
    }
  }

  /** A start position as `indexOf` uses it: past the end means the end. */
  function Clamp(text: string, from: nat): nat {
    if from <= |text| then from else |text|
  }

  /** `text.indexOf(pat, from)`: the leftmost position at or after the clamped start where
      `pat` occurs, or -1 when there is none. */
  function IndexOf(text: string, pat: string, from: nat): (r: int)
    ensures r == -1 || Clamp(text, from) <= r <= |text| - |pat|
    decreases |text| - Clamp(text, from)
  {
    var s := Clamp(text, from);
    if s + |pat| > |text| then -1
    else if MatchAt(text, pat, s) then s
    else IndexOf(text, pat, s + 1)
  }

  /** `indexOf` answers a match at or after the clamped start, and no match lies between
      that start and the answer (or after the start at all, when it answers -1). */
  lemma {:induction false} IndexOfSpec(text: string, pat: string, from: nat)
    ensures IndexOf(text, pat, from) == -1 || MatchAt(text, pat, IndexOf(text, pat, from))
    ensures forall k :: Clamp(text, from) <= k && (IndexOf(text, pat, from) == -1 || k < IndexOf(text, pat, from)) ==>
      !MatchAt(text, pat, k)
    decreases |text| - Clamp(text, from)
  {
    var s := Clamp(text, from);
    if s + |pat| <= |text| && !MatchAt(text, pat, s) {
      IndexOfSpec(text, pat, s + 1);
    }
  }

  /** An index argument of `substring`: negative means 0, past the end means the end. */
  function Bound(s: string, a: int): nat {
    if a < 0 then 0 else if a > |s| then |s| else a
  }

  /** `s.substring(a, b)`: both bounds clamped, and swapped when given in the wrong order. */
  function Substring(s: string, a: int, b: int): string {
    var lo := Bound(s, a);
    var hi := Bound(s, b);
    if lo <= hi then s[lo..hi] else s[hi..lo]
  }

  /** `s.trim() === ""`: every character is white space (space, tab, line feed, carriage
      return, vertical tab, form feed, no-break space or byte order mark). */
  predicate IsBlank(s: string) {
    forall i :: 0 <= i < |s| ==> s[i] in {' ', '\t', '\n', '\r', '\U{000B}', '\U{000C}', '\U{00A0}', '\U{FEFF}'}
  }

  // ---- The scan of one block ----

  /** The starts collected by calling `indexOf` from `from`, then again from the end of
      each match found, until it answers -1. */
  function Occurrences(text: string, pat: string, from: nat): seq<nat>
    requires |pat| > 0
    decreases |text| - Clamp(text, from)
  {
    var i := IndexOf(text, pat, from);
    if i == -1 then [] else [i] + Occurrences(text, pat, i + |pat|)
  }

  /** One step of the scan: the first start is what `indexOf` answers from `from`, and the
      rest is the scan resumed at the end of that match. */
  lemma OccurrencesUnfold(text: string, pat: string, from: nat)
    requires |pat| > 0
    ensures IndexOf(text, pat, from) == -1 ==> Occurrences(text, pat, from) == []
    ensures IndexOf(text, pat, from) != -1 ==>
      Occurrences(text, pat, from) == [IndexOf(text, pat, from)] + Occurrences(text, pat, IndexOf(text, pat, from) + |pat|)
  {
  }

  /** `starts` is the greedy leftmost scan of `text` for `pat` from `from`: with no starts,
      nothing matches from `from` on; otherwise the first start is the leftmost match at or
      after `from`, and the others are the greedy scan from the end of that match. */
  predicate GreedyScan(text: string, pat: string, from: nat, starts: seq<nat>)
    decreases |starts|
  {
    if |starts| == 0 then
      forall k :: from <= k <= |text| ==> !MatchAt(text, pat, k)
    else
      from <= starts[0] && MatchAt(text, pat, starts[0]) &&
      (forall k :: from <= k < starts[0] ==> !MatchAt(text, pat, k)) &&
      GreedyScan(text, pat, starts[0] + |pat|, starts[1..])
  }

  /** The match `indexOf` finds, followed by a greedy scan from its end, is a greedy scan. */
  lemma GreedyCons(text: string, pat: string, from: nat, rest: seq<nat>)
    requires from <= |text| && IndexOf(text, pat, from) != -1
    requires GreedyScan(text, pat, IndexOf(text, pat, from) + |pat|, rest)
    ensures GreedyScan(text, pat, from, [IndexOf(text, pat, from)] + rest)
  {
    IndexOfSpec(text, pat, from);
    assert ([IndexOf(text, pat, from)] + rest)[1..] == rest;
  }

  /** The repeated `indexOf` scan is the greedy leftmost scan. */
  lemma {:induction false} OccurrencesGreedy(text: string, pat: string, from: nat)
    requires |pat| > 0 && from <= |text|
    ensures GreedyScan(text, pat, from, Occurrences(text, pat, from))
    decreases |text| - from
  {
    var i := IndexOf(text, pat, from);
    OccurrencesUnfold(text, pat, from);
    if i == -1 {
      IndexOfSpec(text, pat, from);
    } else {
      OccurrencesGreedy(text, pat, i + |pat|);
      GreedyCons(text, pat, from, Occurrences(text, pat, i + |pat|));
    }
  }


  /** The leftmost match at or after `from` is what `indexOf` answers. */
  lemma {:induction false} IndexOfLeftmost(text: string, pat: string, from: nat, x: nat)
    requires from <= x && MatchAt(text, pat, x)
    requires forall k :: from <= k < x ==> !MatchAt(text, pat, k)
    ensures IndexOf(text, pat, from) == x
    decreases x - from
  {
    if from < x {
      assert !MatchAt(text, pat, from);
      IndexOfLeftmost(text, pat, from + 1, x);
    }
  }

  /** The greedy scan has only one outcome: any sequence of starts that satisfies it is the
      one repeated `indexOf` calls collect. */
  lemma {:induction false} GreedyScanIsOccurrences(text: string, pat: string, from: nat, starts: seq<nat>)
    requires |pat| > 0 && from <= |text|
    requires GreedyScan(text, pat, from, starts)
    ensures starts == Occurrences(text, pat, from)
    decreases |starts|
  {
    if starts == [] {
      IndexOfSpec(text, pat, from);
    } else {
      var x, rest := starts[0], starts[1..];
      IndexOfLeftmost(text, pat, from, x);
      GreedyScanIsOccurrences(text, pat, x + |pat|, rest);
      assert starts == [x] + rest;
    }
  }

  /** Each start lies within the text, is a match, and the matches found do not overlap:
      every start is at least one term length past any earlier one. */
  lemma {:induction false} OccurrencesOrdered(text: string, pat: string, from: nat)
    requires |pat| > 0
    ensures forall j :: 0 <= j < |Occurrences(text, pat, from)| ==>
      Clamp(text, from) <= Occurrences(text, pat, from)[j] && MatchAt(text, pat, Occurrences(text, pat, from)[j])
    ensures forall i, j :: 0 <= i < j < |Occurrences(text, pat, from)| ==>
      Occurrences(text, pat, from)[i] + |pat| <= Occurrences(text, pat, from)[j]
    decreases |text| - Clamp(text, from)
  {
    var i := IndexOf(text, pat, from);
    IndexOfSpec(text, pat, from);
    if i != -1 {
      OccurrencesOrdered(text, pat, i + |pat|);
      var rest := Occurrences(text, pat, i + |pat|);
      var starts := [i] + rest;
      assert Occurrences(text, pat, from) == starts;
      assert Clamp(text, i + |pat|) == i + |pat|;
      forall j | 0 <= j < |starts|
        ensures Clamp(text, from) <= starts[j] && MatchAt(text, pat, starts[j])
      {
        if j > 0 {
          assert starts[j] == rest[j - 1];
        }
      }
      forall a, b | 0 <= a < b < |starts|
        ensures starts[a] + |pat| <= starts[b]
      {
        assert starts[b] == rest[b - 1];
        if a > 0 {
          assert starts[a] == rest[a - 1];
        }
      }
    }
  }

  /** No match is missed: every occurrence at or after the start either is a recorded start
      or overlaps the match at one. */
  lemma {:induction false} OccurrencesCover(text: string, pat: string, from: nat, k: nat)
    requires |pat| > 0 && Clamp(text, from) <= k && MatchAt(text, pat, k)
    ensures exists j ::
      0 <= j < |Occurrences(text, pat, from)| &&
      Occurrences(text, pat, from)[j] <= k < Occurrences(text, pat, from)[j] + |pat|
    decreases |text| - Clamp(text, from)
  {
    var i := IndexOf(text, pat, from);
    var starts := Occurrences(text, pat, from);
    IndexOfSpec(text, pat, from);
    assert i != -1 && i <= k;
    assert starts == [i] + Occurrences(text, pat, i + |pat|);
    if k < i + |pat| {
      assert starts[0] == i;
    } else {
      OccurrencesCover(text, pat, i + |pat|, k);
      var rest := Occurrences(text, pat, i + |pat|);
      var j :| 0 <= j < |rest| && rest[j] <= k < rest[j] + |pat|;
      assert starts[j + 1] == rest[j];
    }
  }

  // ---- The occurrences of a page ----

  /** One recorded occurrence: a content block and a start position in its text. */
  datatype Occurrence = Occurrence(block: nat, start: nat)

  /** The starts found in block `b`, as occurrences. */
  function Tag(b: nat, starts: seq<nat>): seq<Occurrence> {
    if |starts| == 0 then [] else [Occurrence(b, starts[0])] + Tag(b, starts[1..])
  }

  /** Tagging a scan that starts with `x` tags `x`, then the rest. */
  lemma TagCons(b: nat, x: nat, rest: seq<nat>)
    ensures Tag(b, [x] + rest) == [Occurrence(b, x)] + Tag(b, rest)
  {
    assert ([x] + rest)[1..] == rest;
  }

  /** One step of the scan of block `b`: when `indexOf` finds `s` from `from`, recording `s`
      and resuming at the end of the match keeps the recorded occurrences plus those still to
      be found equal to `total`. */
  lemma ScanStep(found: seq<Occurrence>, total: seq<Occurrence>, b: nat, text: string, pat: string, from: nat, s: nat)
    requires |pat| > 0 && IndexOf(text, pat, from) == s
    requires found + Tag(b, Occurrences(text, pat, from)) == total
    ensures (found + [Occurrence(b, s)]) + Tag(b, Occurrences(text, pat, s + |pat|)) == total
  {
    var rest := Occurrences(text, pat, s + |pat|);
    assert Occurrences(text, pat, from) == [s] + rest;
    TagCons(b, s, rest);
  }

  /** The occurrences of `motif` in the blocks, block after block in document order. */
  function DocumentOccurrences(blocks: seq<string>, motif: string): seq<Occurrence>
    requires |motif| > 0
  {
    if |blocks| == 0 then []
    else DocumentOccurrences(blocks[..|blocks| - 1], motif) + Tag(|blocks| - 1, Occurrences(blocks[|blocks| - 1], motif, 0))
  }

  /** What a search for `motif` records: nothing for a blank term, else every occurrence. */
  function Found(blocks: seq<string>, motif: string): seq<Occurrence> {
    if IsBlank(motif) then [] else DocumentOccurrences(blocks, motif)
  }

  /** Occurrence `o` is a match of `motif` in an existing block. */
  predicate Sound(blocks: seq<string>, motif: string, o: Occurrence) {
    o.block < |blocks| && MatchAt(blocks[o.block], motif, o.start)
  }

  /** The match recorded as `o` spans position `k` of block `b`. */
  predicate Covers(o: Occurrence, b: nat, k: nat, len: nat) {
    o.block == b && o.start <= k < o.start + len
  }

  /** Occurrence `o` comes before `p` in document order and the two matches do not overlap. */
  predicate Precedes(o: Occurrence, p: Occurrence, len: nat) {
    o.block < p.block || (o.block == p.block && o.start + len <= p.start)
  }

  lemma {:induction false} TagIndex(b: nat, starts: seq<nat>)
    ensures |Tag(b, starts)| == |starts|
    ensures forall k :: 0 <= k < |starts| ==> Tag(b, starts)[k] == Occurrence(b, starts[k])
    decreases |starts|
  {
    if |starts| > 0 {
      TagIndex(b, starts[1..]);
    }
  }

  /** Every recorded occurrence is a match of the term in an existing block. */
  lemma {:induction false} DocumentSound(blocks: seq<string>, motif: string)
    requires |motif| > 0
    ensures forall i :: 0 <= i < |DocumentOccurrences(blocks, motif)| ==>
      Sound(blocks, motif, DocumentOccurrences(blocks, motif)[i])
    decreases |blocks|
  {
    if |blocks| > 0 {
      var last := |blocks| - 1;
      var prefix := blocks[..last];
      DocumentSound(prefix, motif);
      var head := DocumentOccurrences(prefix, motif);
      var starts := Occurrences(blocks[last], motif, 0);
      OccurrencesOrdered(blocks[last], motif, 0);
      TagIndex(last, starts);
      var tail := Tag(last, starts);
      var occ := head + tail;
      assert DocumentOccurrences(blocks, motif) == occ;
      forall i | 0 <= i < |occ|
        ensures Sound(blocks, motif, occ[i])
      {
        if i < |head| {
          assert occ[i] == head[i] && Sound(prefix, motif, head[i]);
          assert prefix[head[i].block] == blocks[head[i].block];
        } else {
          assert occ[i] == tail[i - |head|];
        }
      }
    }
  }

  /** The recorded occurrences are in document order, block after block and left to right
      within a block, and no two recorded matches overlap. */
  lemma {:induction false} DocumentOrdered(blocks: seq<string>, motif: string)
    requires |motif| > 0
    ensures forall i, j :: 0 <= i < j < |DocumentOccurrences(blocks, motif)| ==>
      Precedes(DocumentOccurrences(blocks, motif)[i], DocumentOccurrences(blocks, motif)[j], |motif|)
    decreases |blocks|
  {
    if |blocks| > 0 {
      var last := |blocks| - 1;
      var prefix := blocks[..last];
      DocumentOrdered(prefix, motif);
      DocumentSound(prefix, motif);
      var head := DocumentOccurrences(prefix, motif);
      var starts := Occurrences(blocks[last], motif, 0);
      OccurrencesOrdered(blocks[last], motif, 0);
      TagIndex(last, starts);
      var tail := Tag(last, starts);
      var occ := head + tail;
      assert DocumentOccurrences(blocks, motif) == occ;
      forall i, j | 0 <= i < j < |occ|
        ensures Precedes(occ[i], occ[j], |motif|)
      {
        if j >= |head| {
          assert occ[j] == tail[j - |head|];
          if i < |head| {
            assert occ[i] == head[i] && Sound(prefix, motif, head[i]);
          } else {
            assert occ[i] == tail[i - |head|];
          }
        }
      }
    }
  }


  /** Every match in every block is recorded, or overlaps a recorded match of the same block. */
  lemma {:induction false} DocumentComplete(blocks: seq<string>, motif: string, b: nat, k: nat)
    requires |motif| > 0 && b < |blocks| && MatchAt(blocks[b], motif, k)
    ensures exists i ::
      0 <= i < |DocumentOccurrences(blocks, motif)| && Covers(DocumentOccurrences(blocks, motif)[i], b, k, |motif|)
    decreases |blocks|
  {
    var last := |blocks| - 1;
    var prefix := blocks[..last];
    var head := DocumentOccurrences(prefix, motif);
    var starts := Occurrences(blocks[last], motif, 0);
    var tail := Tag(last, starts);
    assert DocumentOccurrences(blocks, motif) == head + tail;
    if b < last {
      assert prefix[b] == blocks[b];
      DocumentComplete(prefix, motif, b, k);
      var i :| 0 <= i < |head| && Covers(head[i], b, k, |motif|);
      assert (head + tail)[i] == head[i];
    } else {
      OccurrencesCover(blocks[last], motif, 0, k);
      var j :| 0 <= j < |starts| && starts[j] <= k < starts[j] + |motif|;
      TagIndex(last, starts);
      assert (head + tail)[|head| + j] == tail[j];
    }
  }

  /** A text that does not contain the first character of the term has no match of it. */
  lemma FirstCharAbsent(text: string, pat: string)
    requires |pat| > 0 && pat[0] !in text
    ensures forall k :: 0 <= k <= |text| ==> !MatchAt(text, pat, k)
  {
    forall k | 0 <= k <= |text|
      ensures !MatchAt(text, pat, k)
    {
      if MatchAt(text, pat, k) {
        assert false;
      }
    }
  }

  /** Searching "Tous" in the blocks "Tous sont égaux" and "Nul ne peut" records one
      occurrence: the first block, at position 0. */
  lemma SearchExample()
    ensures DocumentOccurrences(["Tous sont égaux", "Nul ne peut"], "Tous") == [Occurrence(0, 0)]
  {
    var a, b, m := "Tous sont égaux", "Nul ne peut", "Tous";
    assert MatchAt(a, m, 0);
    FirstCharAbsent(a[4..], m);
    GreedyScanIsOccurrences(a, m, 0, [0]);
    FirstCharAbsent(b, m);
    GreedyScanIsOccurrences(b, m, 0, []);
    assert ["Tous sont égaux", "Nul ne peut"][..1] == [a];
    assert [a][..0] == [];
  }

  // ---- Highlighting ----

  /** The three parts a highlighted block is rebuilt from: the text before the match, the
      matched text (wrapped in a highlight span on the page) and the text after it. */
  datatype Split = Split(avant: string, milieu: string, apres: string)

  /** The split `highlightMotif` builds for a match of `motif` at `start` in `texte`. */
  function HighlightMotif(texte: string, start: nat, motif: string): (r: Split)
    ensures start <= |texte| ==> r.avant + r.milieu + r.apres == texte
    ensures start <= |texte| ==> |r.avant| == start && |r.milieu| == Bound(texte, start + |motif|) - start
    ensures start > |texte| ==> r == Split(texte, "", "")
    ensures MatchAt(texte, motif, start) ==> r.milieu == motif
  {
    Split(Substring(texte, 0, start), Substring(texte, start, start + |motif|), Substring(texte, start + |motif|, |texte|))
  }

  // ---- The cursor ----

  /** The cursor move of `recherche` over `n` occurrences: one step forward or backward, a
      position past the end going to 0 and one before the start going to the last. */
  function Moved(index: int, n: nat, avant: bool): (r: int)
    requires n > 0
    ensures 0 <= r < n
  {
    var i := if avant then index + 1 else index - 1;
    var j := if i >= n then 0 else i;
    if j < 0 then n - 1 else j
  }

  /** A number already in range is its own remainder. */
  lemma ModInRange(x: int, n: nat)
    requires 0 <= x < n
    ensures x % n == x
  {
  }

  /** Stepping past the last position wraps to 0. */
  lemma ModWrapUp(n: nat)
    requires n > 0
    ensures n % n == 0
  {
  }

  /** Stepping before the first position wraps to the last. */
  lemma ModWrapDown(n: nat)
    requires n > 0
    ensures (-1) % n == n - 1
  {
  }

  /** From a valid cursor (or from -1, before the first move), a move is a step modulo `n`;
      backward from -1 lands on the last occurrence. */
  lemma MovedIsModular(index: int, n: nat, avant: bool)
    requires n > 0 && -1 <= index < n
    ensures avant ==> Moved(index, n, avant) == (index + 1) % n
    ensures !avant && index >= 0 ==> Moved(index, n, avant) == (index - 1) % n
    ensures !avant && index == -1 ==> Moved(index, n, avant) == n - 1
  {
    if avant {
      if index + 1 == n {
        ModWrapUp(n);
      } else {
        ModInRange(index + 1, n);
      }
    } else if index == 0 {
      ModWrapDown(n);
    } else if index > 0 {
      ModInRange(index - 1, n);
    }
  }

  /** A forward move and a backward move undo each other. */
  lemma MovedRoundTrip(index: int, n: nat)
    requires n > 0 && 0 <= index < n
    ensures Moved(Moved(index, n, true), n, false) == index
    ensures Moved(Moved(index, n, false), n, true) == index
  {
  }
}

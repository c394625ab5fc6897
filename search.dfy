/**
 * The search state of the article editor: the term searched for, the occurrences found in
 * the content blocks, and the cursor on the occurrence currently highlighted. The page is
 * reduced to the text content of its content blocks, which searching does not change;
 * highlighting is represented by the block and the three parts its markup is rebuilt from.
 */
module Search {
  import opened Wrappers
  import opened SearchSpec

  /** A highlighted block: its index and the parts its content is rebuilt from. */
  datatype Mark = Mark(block: nat, parts: Split)

  class Editeur {
    /** The text content of the content blocks, in document order. */
    const blocks: seq<string>
    var motifRecherche: string
    var occurrences: seq<Occurrence>
    var occurrenceIndex: int

    /** The recorded occurrences are exactly those of the current term, each of them a match
        in an existing block, and the cursor is -1 or on one of them. */
    ghost predicate Valid()
      reads this
    {
      occurrences == Found(blocks, motifRecherche) &&
      (forall i :: 0 <= i < |occurrences| ==> Sound(blocks, motifRecherche, occurrences[i])) &&
      -1 <= occurrenceIndex < |occurrences|
    }

    /** The highlight of occurrence `o` of the current term. */
    function Highlight(o: Occurrence): Mark
      requires o.block < |blocks|
      reads this
    {
      Mark(o.block, HighlightMotif(blocks[o.block], o.start, motifRecherche))
    }

    /** An editor over the given blocks with no search in progress. */
    constructor (contenus: seq<string>)
      ensures Valid()
      ensures blocks == contenus && motifRecherche == "" && occurrences == [] && occurrenceIndex == -1
    {
      blocks := contenus;
      motifRecherche := "";
      occurrences := [];
      occurrenceIndex := -1;
    }

    /** Starts a search for `motif`: records every occurrence, block by block and left to right,
        each scan resuming at the end of the previous match, then highlights the first one.
        A blank term records nothing. */
    method InitRecherche(motif: string) returns (shown: Option<Mark>)
      modifies this
      ensures Valid()
      ensures motifRecherche == motif && occurrences == Found(blocks, motif)
      ensures IsBlank(motif) ==> occurrences == []
      ensures |occurrences| == 0 ==> occurrenceIndex == -1 && shown == None
      ensures |occurrences| > 0 ==> occurrenceIndex == 0 && shown == Some(Highlight(occurrences[0]))
    {
      motifRecherche := motif;
      occurrences := [];
      occurrenceIndex := -1;
      if IsBlank(motif) {
        return None;
      }
      for b := 0 to |blocks|
        invariant motifRecherche == motif && occurrenceIndex == -1
        invariant occurrences == DocumentOccurrences(blocks[..b], motif)
      {
        RechercheBloc(b);
        assert blocks[..b + 1][..b] == blocks[..b];
      }
      assert blocks[..|blocks|] == blocks;
      DocumentSound(blocks, motif);
      shown := Recherche(true);
    }

    /** The scan of block `b`: `indexOf` is called from the start of the text, then again from
        the end of each match found, and every match found is appended to the occurrences. */
    method RechercheBloc(b: nat)
      requires b < |blocks| && |motifRecherche| > 0
      modifies this`occurrences
      ensures occurrences == old(occurrences) + Tag(b, Occurrences(blocks[b], motifRecherche, 0))
    {
      var texte := blocks[b];
      var motif := motifRecherche;
      var startIndex: int := 0;
      ghost var total := occurrences + Tag(b, Occurrences(texte, motif, 0));
      while true
        invariant 0 <= startIndex <= |texte|
        invariant occurrences + Tag(b, Occurrences(texte, motif, startIndex)) == total
        decreases |texte| - startIndex
      {
        ghost var from: nat := startIndex;
        startIndex := IndexOf(texte, motif, startIndex);
        if startIndex == -1 {
          break;
        }
        ScanStep(occurrences, total, b, texte, motif, from, startIndex);
        occurrences := occurrences + [Occurrence(b, startIndex)];
        startIndex := startIndex + |motif|;
      }
    }

    /** Moves the cursor one occurrence forward (`avant`) or backward, wrapping around at both
        ends, and highlights the occurrence it lands on. Without occurrences nothing changes. */
    method Recherche(avant: bool) returns (shown: Option<Mark>)
      requires Valid()
      modifies this`occurrenceIndex
      ensures Valid()
      ensures |occurrences| == 0 ==> occurrenceIndex == old(occurrenceIndex) && shown == None
      ensures |occurrences| > 0 ==>
        occurrenceIndex == Moved(old(occurrenceIndex), |occurrences|, avant) &&
        shown == Some(Highlight(occurrences[occurrenceIndex]))
      ensures shown.Some? ==>
        var o := occurrences[occurrenceIndex];
        var parts := shown.value.parts;
        parts.avant + parts.milieu + parts.apres == blocks[o.block] &&
        |parts.avant| == o.start && parts.milieu == motifRecherche
    {
      if |occurrences| == 0 {
        return None;
      }
      occurrenceIndex := if avant then occurrenceIndex + 1 else occurrenceIndex - 1;
      if occurrenceIndex >= |occurrences| {
        occurrenceIndex := 0;
      }
      if occurrenceIndex < 0 {
        occurrenceIndex := |occurrences| - 1;
      }
      var o := occurrences[occurrenceIndex];
      shown := Some(Highlight(o));
    }

    /** Clears the search: no term, no occurrences, no cursor. */
    method EffacerRecherche()
      modifies this
      ensures Valid()
      ensures motifRecherche == "" && occurrences == [] && occurrenceIndex == -1
    {
      motifRecherche := "";
      occurrences := [];
      occurrenceIndex := -1;
    }
  }
}

/**
 * The note vocabulary offered to criteria search (app.py:66-74) and the `?note=` deep
 * link that preselects a note and with it the initial search mode (app.py:31-32, 76-78).
 */
module Notes {
  import opened Wrappers
  import opened Text
  import opened Catalog

  /** One note column of the catalog, perfume by perfume (`df[col]`). */
  function NoteColumn(ps: seq<Perfume>, slot: nat): (r: seq<string>)
    requires slot < 6
    ensures |r| == |ps|
  {
    seq(|ps|, i requires 0 <= i < |ps| => NoteSlots(ps[i])[slot])
  }

  /** `pd.concat` of the six note columns: every top 1 note, then every top 2 note, and so on. */
  function AllNotes(ps: seq<Perfume>): seq<string> {
    NoteColumn(ps, 0) + NoteColumn(ps, 1) + NoteColumn(ps, 2)
    + NoteColumn(ps, 3) + NoteColumn(ps, 4) + NoteColumn(ps, 5)
  }

  /** The values whose `strip()` is not "", in their order. */
  function NonBlank(xs: seq<string>): (r: seq<string>)
    ensures forall x :: x in r <==> x in xs && Strip(x) != ""
  {
    if |xs| == 0 then []
    else (if Strip(xs[0]) != "" then [xs[0]] else []) + NonBlank(xs[1..])
  }

  /**
   * `notes_uniques`: the distinct note values (`pd.unique`), the blank ones dropped, sorted.
   * Dropping blanks before or after removing duplicates keeps the same values.
   */
  function Vocabulary(ps: seq<Perfume>): (r: seq<string>)
    ensures StrictlySorted(r)
    ensures forall x :: x in r <==> x in AllNotes(ps) && Strip(x) != ""
  {
    SortedUnique(NonBlank(AllNotes(ps)))
  }

  /** `x` fills one of the six note slots of some perfume. */
  predicate InSomeSlot(ps: seq<Perfume>, x: string) {
    exists i, k :: 0 <= i < |ps| && 0 <= k < 6 && NoteSlots(ps[i])[k] == x
  }

  lemma AllNotesMembers(ps: seq<Perfume>, x: string)
    ensures x in AllNotes(ps) <==> InSomeSlot(ps, x)
  {
    if x in AllNotes(ps) {
      var k :| 0 <= k < 6 && x in NoteColumn(ps, k);
      var i :| 0 <= i < |ps| && NoteColumn(ps, k)[i] == x;
      assert NoteSlots(ps[i])[k] == x;
    }
    if InSomeSlot(ps, x) {
      var i, k :| 0 <= i < |ps| && 0 <= k < 6 && NoteSlots(ps[i])[k] == x;
      assert NoteColumn(ps, k)[i] == x;
      assert x in NoteColumn(ps, k);
    }
  }

  /**
   * The vocabulary is sorted with no value twice, and holds exactly the values that fill
   * a note slot of some perfume and are not blank.
   */
  lemma VocabularySpec(ps: seq<Perfume>)
    ensures StrictlySorted(Vocabulary(ps))
    ensures forall x :: x in Vocabulary(ps) <==> InSomeSlot(ps, x) && !IsBlank(x)
  {
    forall x ensures x in Vocabulary(ps) <==> InSomeSlot(ps, x) && !IsBlank(x) {
      AllNotesMembers(ps, x);
      StripEmptyIffBlank(x);
    }
  }

  /** `forced_note`: the `?note=` value (absent reads as "") if it is in the vocabulary, else "". */
  function ForcedNote(query: Option<string>, vocabulary: seq<string>): (r: string)
    ensures r == "" || (r in vocabulary && r == query.GetOr(""))
    ensures query.GetOr("") in vocabulary ==> r == query.GetOr("")
  {
    var q := query.GetOr("");
    if q in vocabulary then q else ""
  }

  /** The two search modes of the page's radio button. */
  datatype Mode = FromPerfume | ByCriteria

  /** The radio button's initial choice: criteria search exactly when a note is forced. */
  function InitialMode(forced: string): (r: Mode)
    ensures r == ByCriteria <==> forced != ""
  {
    if forced != "" then ByCriteria else FromPerfume
  }

  /**
   * A deep-linked note is kept exactly when it is in the vocabulary, and otherwise
   * silently ignored; and criteria search is preselected exactly when it is kept.
   */
  lemma DeepLink(ps: seq<Perfume>, query: Option<string>)
    ensures var q, f := query.GetOr(""), ForcedNote(query, Vocabulary(ps));
            && (q in Vocabulary(ps) ==> f == q)
            && (q !in Vocabulary(ps) ==> f == "")
            && (f != "" <==> q in Vocabulary(ps))
            && (InitialMode(f) == ByCriteria <==> q in Vocabulary(ps))
  {
    VocabularySpec(ps);
    assert IsBlank("");
  }
}

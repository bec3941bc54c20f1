/**
 * The perfume catalog as the page prepares it: a spreadsheet whose empty cells are
 * filled with "" (app.py:35), a "Sexe" column that defaults to "" (app.py:37-38), the
 * display label of each perfume (app.py:41-48) and its olfactory profile (app.py:50-60).
 */
module Catalog {
  import opened Wrappers
  import opened Text

  /** One spreadsheet cell as read: empty (`NaN` after reading), or its text. */
  datatype Cell = Missing | Value(text: string)

  type Row = map<string, Cell>

  /** The sheet as read from the workbook: its column headers and its rows in order. */
  datatype Sheet = Sheet(columns: set<string>, rows: seq<Row>)

  /** One perfume once every cell it uses has been filled. */
  datatype Perfume = Perfume(
    reference: string, name: string, perfumer: string, sex: string,
    family: string, facet1: string, facet2: string,
    top1: string, top2: string, heart1: string, heart2: string, base1: string, base2: string)

  /**
   * The prepared catalog: the perfumes in sheet order (row i of every derived table is
   * perfume i) and whether the sheet has the three columns of the long display label.
   */
  datatype Collection = Collection(perfumes: seq<Perfume>, labelled: bool)

  const ReferenceCol := "Référence"
  const NameCol := "Nom du Parfum"
  const PerfumerCol := "Parfumeur"
  const SexCol := "Sexe"
  const FamilyCol := "Famille Olfactive Principale"
  const Facet1Col := "Facette 1"
  const Facet2Col := "Facette 2"
  const Top1Col := "Notes de Tête 1"
  const Top2Col := "Notes de Tête 2"
  const Heart1Col := "Notes de Cœur 1"
  const Heart2Col := "Notes de Cœur 2"
  const Base1Col := "Notes de Fond 1"
  const Base2Col := "Notes de Fond 2"

  /** The nine columns of the profile, in the order they are concatenated. */
  const ProfileColumns: seq<string> :=
    [FamilyCol, Facet1Col, Facet2Col, Top1Col, Top2Col, Heart1Col, Heart2Col, Base1Col, Base2Col]

  /**
   * The columns whose absence stops the page, in the order it reads them: the name
   * (the short label copies it) and then the nine profile columns.
   */
  const RequiredColumns: seq<string> := [NameCol] + ProfileColumns

  /** Every column a perfume is read from: the three label columns, "Sexe" and the profile. */
  const RecordColumns: seq<string> := [ReferenceCol, NameCol, PerfumerCol, SexCol] + ProfileColumns

  function CellAt(row: Row, col: string): Cell {
    if col in row then row[col] else Missing
  }

  /** A cell after `fillna("")`; a column the sheet lacks reads as "", as "Sexe" is added. */
  function Fill(columns: set<string>, row: Row, col: string): string {
    if col !in columns then ""
    else match CellAt(row, col)
      case Missing => ""
      case Value(t) => t
  }

  predicate HasLabelColumns(columns: set<string>) {
    ReferenceCol in columns && NameCol in columns && PerfumerCol in columns
  }

  /** The first of `cols` that the sheet lacks, which is where the page stops with a missing-key error. */
  function FirstMissing(columns: set<string>, cols: seq<string>): (r: Option<string>)
    ensures r.None? <==> forall k :: 0 <= k < |cols| ==> cols[k] in columns
    ensures r.Some? ==> exists k :: 0 <= k < |cols| && cols[k] == r.value && r.value !in columns
                                    && forall m :: 0 <= m < k ==> cols[m] in columns
  {
    if |cols| == 0 then None
    else if cols[0] !in columns then Some(cols[0])
    else
      var r := FirstMissing(columns, cols[1..]);
      if r.Some? then
        var k :| 0 <= k < |cols| - 1 && cols[1..][k] == r.value && r.value !in columns
                 && forall m :: 0 <= m < k ==> cols[1..][m] in columns;
        assert cols[k + 1] == r.value && forall m :: 0 <= m < k + 1 ==> cols[m] in columns;
        r
      else r
  }

  function RecordOf(columns: set<string>, row: Row): Perfume {
    Perfume(
      Fill(columns, row, ReferenceCol), Fill(columns, row, NameCol), Fill(columns, row, PerfumerCol),
      Fill(columns, row, SexCol),
      Fill(columns, row, FamilyCol), Fill(columns, row, Facet1Col), Fill(columns, row, Facet2Col),
      Fill(columns, row, Top1Col), Fill(columns, row, Top2Col),
      Fill(columns, row, Heart1Col), Fill(columns, row, Heart2Col),
      Fill(columns, row, Base1Col), Fill(columns, row, Base2Col))
  }

  /**
   * Prepares the sheet: fails with the first required column it lacks, and otherwise
   * fills every row and records whether the long label can be built.
   */
  function Load(sheet: Sheet): (r: Result<Collection, string>)
    ensures r.Success? <==> forall k :: 0 <= k < |RequiredColumns| ==> RequiredColumns[k] in sheet.columns
    ensures r.Failure? ==> r.error in RequiredColumns && r.error !in sheet.columns
    ensures r.Failure? ==> FirstMissing(sheet.columns, RequiredColumns) == Some(r.error)
    ensures r.Failure? ==> exists k :: 0 <= k < |RequiredColumns| && RequiredColumns[k] == r.error
                                       && forall m :: 0 <= m < k ==> RequiredColumns[m] in sheet.columns
    ensures r.Success? ==> |r.value.perfumes| == |sheet.rows|
    ensures r.Success? ==> (r.value.labelled <==> HasLabelColumns(sheet.columns))
  {
    match FirstMissing(sheet.columns, RequiredColumns)
    case Some(c) => Failure(c)
    case None =>
      Success(Collection(
        seq(|sheet.rows|, i requires 0 <= i < |sheet.rows| => RecordOf(sheet.columns, sheet.rows[i])),
        HasLabelColumns(sheet.columns)))
  }

  /** The profile fields of a perfume in the order the profile concatenates them. */
  function ProfileFields(p: Perfume): (r: seq<string>)
    ensures |r| == |ProfileColumns|
  {
    [p.family, p.facet1, p.facet2, p.top1, p.top2, p.heart1, p.heart2, p.base1, p.base2]
  }

  /** All thirteen fields of a perfume, in the order of `RecordColumns`. */
  function RecordFields(p: Perfume): (r: seq<string>)
    ensures |r| == |RecordColumns|
  {
    [p.reference, p.name, p.perfumer, p.sex] + ProfileFields(p)
  }

  /** The six note slots: top 1 and 2, heart 1 and 2, base 1 and 2. */
  function NoteSlots(p: Perfume): (r: seq<string>)
    ensures |r| == 6
  {
    [p.top1, p.top2, p.heart1, p.heart2, p.base1, p.base2]
  }

  /**
   * A field of a loaded perfume is its cell's text, "" for an empty cell, and "" for a
   * column the sheet lacks: no placeholder such as "nan" ever reaches a label, the sex
   * filter or the profile.
   */
  lemma LoadedField(sheet: Sheet, i: nat, k: nat)
    requires Load(sheet).Success? && i < |sheet.rows| && k < |RecordColumns|
    ensures RecordColumns[k] in RequiredColumns ==> RecordColumns[k] in sheet.columns
    ensures RecordFields(Load(sheet).value.perfumes[i])[k]
            == if RecordColumns[k] !in sheet.columns then ""
               else match CellAt(sheet.rows[i], RecordColumns[k]) case Missing => "" case Value(t) => t
  {
  }

  /** Without a "Sexe" column every perfume has sex "". */
  lemma LoadedSexDefault(sheet: Sheet, i: nat)
    requires Load(sheet).Success? && i < |sheet.rows| && SexCol !in sheet.columns
    ensures Load(sheet).value.perfumes[i].sex == ""
  {
  }

  /** The text before the first `stop` in `s`, if `stop` occurs. */
  function UpTo(s: string, stop: char): (r: Option<string>)
    ensures r.Some? ==> stop !in r.value && |r.value| < |s| && s[..|r.value|] == r.value && s[|r.value|] == stop
    ensures r.None? <==> stop !in s
  {
    if |s| == 0 then None
    else if s[0] == stop then Some("")
    else match UpTo(s[1..], stop)
      case None => None
      case Some(t) => Some([s[0]] + t)
  }

  /** The reference read back from a long label: what stands between "[" and the first "]". */
  function ReferenceOf(text: string): Option<string> {
    if |text| > 0 && text[0] == '[' then UpTo(text[1..], ']') else None
  }

  lemma {:induction false} UpToStop(t: string, rest: string, stop: char)
    requires stop !in t
    ensures UpTo(t + [stop] + rest, stop) == Some(t)
  {
    if |t| > 0 {
      assert (t + [stop] + rest)[1..] == t[1..] + [stop] + rest;
      UpToStop(t[1..], rest, stop);
      assert [t[0]] + t[1..] == t;
    } else {
      assert t + [stop] + rest == [stop] + rest;
    }
  }

  /**
   * The text shown in the perfume picker ("Affichage"): the bare name without the three
   * label columns; otherwise a long label from which the reference can be read back,
   * when it holds no "]".
   */
  function Label(labelled: bool, p: Perfume): (r: string)
    ensures !labelled ==> r == p.name
    ensures labelled && ']' !in p.reference ==> ReferenceOf(r) == Some(p.reference)
  {
    if !labelled then p.name
    else
      var rest := " " + p.name + " – " + p.perfumer;
      var l := "[" + p.reference + "] " + p.name + " – " + p.perfumer;
      assert l[1..] == p.reference + [']'] + rest;
      if ']' in p.reference then l
      else UpToStop(p.reference, rest, ']'); l
  }

  function Labels(c: Collection): (r: seq<string>)
    ensures |r| == |c.perfumes|
  {
    seq(|c.perfumes|, i requires 0 <= i < |c.perfumes| => Label(c.labelled, c.perfumes[i]))
  }

  /** Long labels of perfumes with different references (without "]") differ. */
  lemma LabelsDistinguishReferences(p: Perfume, q: Perfume)
    requires ']' !in p.reference && ']' !in q.reference && p.reference != q.reference
    ensures Label(true, p) != Label(true, q)
  {
  }

  /**
   * In `a + " – " + b` with no "–" in `b`, the dash of the separator is the last one:
   * it stands just before the space that opens `b`.
   */
  lemma LastDash(a: string, b: string)
    requires '–' !in b
    ensures var s := a + " – " + b;
            s[|s| - |b| - 2] == '–' && forall k :: |s| - |b| - 1 <= k < |s| ==> s[k] != '–'
  {
    var s := a + " – " + b;
    assert forall k :: |s| - |b| <= k < |s| ==> s[k] == b[k - (|s| - |b|)];
  }

  /** The name and perfumer are read back from `name + " – " + perfumer` when the perfumer holds no "–". */
  lemma {:induction false} DashSplit(a1: string, b1: string, a2: string, b2: string)
    requires '–' !in b1 && '–' !in b2
    requires a1 + " – " + b1 == a2 + " – " + b2
    ensures a1 == a2 && b1 == b2
  {
    var s := a1 + " – " + b1;
    LastDash(a1, b1);
    LastDash(a2, b2);
    assert |b1| == |b2|;
    assert b1 == s[|s| - |b1|..] == b2;
    assert a1 == s[..|a1|] == a2;
  }

  /**
   * A long label determines the perfume's reference, name and perfumer, when no
   * reference holds "]" and no perfumer holds "–".
   */
  lemma LabelInjective(p: Perfume, q: Perfume)
    requires ']' !in p.reference && ']' !in q.reference && '–' !in p.perfumer && '–' !in q.perfumer
    requires Label(true, p) == Label(true, q)
    ensures p.reference == q.reference && p.name == q.name && p.perfumer == q.perfumer
  {
    var l := Label(true, p);
    assert p.reference == q.reference;
    var n := |p.reference| + 3;
    assert l[n..] == p.name + " – " + p.perfumer;
    assert Label(true, q)[n..] == q.name + " – " + q.perfumer;
    DashSplit(p.name, p.perfumer, q.name, q.perfumer);
  }

  /**
   * The olfactory profile ("Profil"): the nine fields in their fixed order with one
   * space between each two, empty fields included.
   */
  function Profile(p: Perfume): (r: string)
    ensures r == Join(ProfileFields(p), ' ')
  {
    var f := ProfileFields(p);
    assert f[7..][1..] == f[8..] && f[6..][1..] == f[7..] && f[5..][1..] == f[6..];
    assert f[4..][1..] == f[5..] && f[3..][1..] == f[4..] && f[2..][1..] == f[3..];
    assert f[1..][1..] == f[2..];
    assert Join(f[7..], ' ') == p.base1 + " " + p.base2;
    assert Join(f[6..], ' ') == p.heart2 + " " + Join(f[7..], ' ');
    assert Join(f[5..], ' ') == p.heart1 + " " + Join(f[6..], ' ');
    assert Join(f[4..], ' ') == p.top2 + " " + Join(f[5..], ' ');
    assert Join(f[3..], ' ') == p.top1 + " " + Join(f[4..], ' ');
    assert Join(f[2..], ' ') == p.facet2 + " " + Join(f[3..], ' ');
    assert Join(f[1..], ' ') == p.facet1 + " " + Join(f[2..], ' ');
    p.family + " " + (p.facet1 + " " + (p.facet2 + " " + (p.top1 + " " + (p.top2 + " "
    + (p.heart1 + " " + (p.heart2 + " " + (p.base1 + " " + p.base2)))))))
  }

  function Profiles(c: Collection): (r: seq<string>)
    ensures |r| == |c.perfumes|
    ensures forall i :: 0 <= i < |c.perfumes| ==> r[i] == Profile(c.perfumes[i])
  {
    seq(|c.perfumes|, i requires 0 <= i < |c.perfumes| => Profile(c.perfumes[i]))
  }

  /**
   * Splitting a profile on spaces gives back the nine fields when no field holds a
   * space: every field, empty or not, keeps its own place between the separators.
   */
  lemma ProfileSplit(p: Perfume)
    requires forall k :: 0 <= k < 9 ==> ' ' !in ProfileFields(p)[k]
    ensures Split(Profile(p), ' ') == ProfileFields(p)
  {
    SplitJoin(ProfileFields(p), ' ');
  }
}

/** The audit trail: every stage of the cleaning pipeline appends to the
    `observacoes` cell of a row through one helper, `_adicionar_observacao`. */
module Notes {
  import opened Wrappers
  import opened Tables

  const Obs := "observacoes"
  const Separator := " | "

  /** The row already carries a note: its `observacoes` cell is present,
      not missing and truthy. */
  predicate HasNote(r: Row) {
    Obs in r && !r[Obs].Missing? && Truthy(r[Obs])
  }

  /** The audit text a row carries; empty when it has no note. */
  function NoteText(lib: Library, r: Row): string {
    if HasNote(r) then Render(lib, r[Obs]) else ""
  }

  /** The audit text of `r` once `msg` is appended to it. */
  function Appended(lib: Library, r: Row, msg: string): string {
    if HasNote(r) then NoteText(lib, r) + Separator + msg else msg
  }

  /** `_adicionar_observacao(row, msg)` as evidently intended: `msg` alone when
      the row has no note yet, otherwise the old note, the separator and `msg`. */
  function AddNote(lib: Library, r: Row, msg: string): (v: Value)
    requires msg != ""
    ensures v.Str? && v.s != ""
    ensures HasNote(r[Obs := v])
    ensures NoteText(lib, r[Obs := v]) == Appended(lib, r, msg)
  {
    if HasNote(r) then
      Str(Render(lib, r[Obs]) + Separator + msg)
    else
      Str(msg)
  }

  /** Appending never loses what was there: the old text is a prefix of the
      new one and `msg` ends it. */
  lemma NotesOnlyGrow(lib: Library, r: Row, msg: string)
    requires msg != ""
    ensures var text := NoteText(lib, r[Obs := AddNote(lib, r, msg)]);
            && text[..|NoteText(lib, r)|] == NoteText(lib, r)
            && |text| >= |msg| && text[|text| - |msg|..] == msg
            && (HasNote(r) ==> text == NoteText(lib, r) + Separator + msg)
            && (!HasNote(r) ==> text == msg)
  {
  }

  /** `_adicionar_observacao` as written: a missing (NaN) note is truthy in
      Python, so it is rendered as "nan" and kept in front of `msg`. */
  function AddNoteAsWritten(lib: Library, r: Row, msg: string): (v: Value)
    ensures v.Str?
    ensures Obs !in r ==> v == Str(msg)
    ensures Obs in r && !Truthy(r[Obs]) ==> v == Str(msg)
    ensures Obs in r && Truthy(r[Obs]) ==> v == Str(Render(lib, r[Obs]) + Separator + msg)
  {
    if Obs in r && Truthy(r[Obs]) then Str(Render(lib, r[Obs]) + Separator + msg) else Str(msg)
  }

  /** The two helpers differ exactly on a row whose note cell is missing:
      there the written helper prefixes "nan | ", which was never a note. */
  lemma AsWrittenDiffersOnlyOnMissingNote(lib: Library, r: Row, msg: string)
    requires msg != ""
    ensures AddNoteAsWritten(lib, r, msg) != AddNote(lib, r, msg) <==> Obs in r && r[Obs].Missing?
    ensures Obs in r && r[Obs].Missing? ==>
              && NoteText(lib, r) == ""
              && AddNoteAsWritten(lib, r, msg) == Str("nan" + Separator + msg)
  {
    if Obs in r && r[Obs].Missing? {
      assert |AddNoteAsWritten(lib, r, msg).s| > |msg|;
    }
  }

  /** The row after the masked `.loc` assignment: a noted row gets the
      helper's value; when the column is being created (`create`), the other
      rows get a missing cell. */
  function NoteRow(lib: Library, r: Row, m: Option<string>, create: bool): (r': Row)
    requires m.Some? ==> m.value != ""
    ensures r'.Keys == r.Keys + (if m.Some? || create then {Obs} else {})
    ensures SameExcept(r, r', {Obs})
    ensures NoteText(lib, r') == (if m.Some? then Appended(lib, r, m.value) else NoteText(lib, r))
    ensures m.None? && Obs in r ==> r'[Obs] == r[Obs]
    ensures m.None? && create && Obs !in r ==> r'[Obs] == Missing
  {
    match m
    case Some(msg) => r[Obs := AddNote(lib, r, msg)]
    case None => if Obs in r || !create then r else r[Obs := Missing]
  }

  /** A row after one stage of the pipeline: cell `c` set to `v` and the
      stage's note, if any, appended. */
  function StageRow(lib: Library, r: Row, c: string, v: Value, m: Option<string>, create: bool): (r': Row)
    requires c != Obs
    requires m.Some? ==> m.value != ""
    ensures r'.Keys == r.Keys + {c} + (if m.Some? || create then {Obs} else {})
    ensures r'[c] == v
    ensures SameExcept(r, r', {c, Obs})
    ensures NoteText(lib, r') == (if m.Some? then Appended(lib, r, m.value) else NoteText(lib, r))
    ensures m.None? && Obs in r ==> r'[Obs] == r[Obs]
  {
    var noted := NoteRow(lib, r, m, create);
    assert Agree(noted, noted[c := v], Obs);
    noted[c := v]
  }
}

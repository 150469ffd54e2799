/**
 * The match list page: the rows held in memory, the add/edit dialog state,
 * and the year filter of the table's date column.
 */
module MatchResults {
  import opened Wrappers
  import opened Types
  import opened JsText

  /** `matches.filter((m) => m.id !== id)`. */
  function WithoutId(ms: seq<Match>, id: string): (r: seq<Match>)
    ensures |r| <= |ms|
    ensures forall m :: m in r <==> m in ms && m.id != id
  {
    if ms == [] then []
    else if ms[0].id == id then WithoutId(ms[1..], id)
    else [ms[0]] + WithoutId(ms[1..], id)
  }

  /** Filtering distributes over concatenation: the kept rows stay in their original order. */
  lemma {:induction false} WithoutIdAppend(a: seq<Match>, b: seq<Match>, id: string)
    ensures WithoutId(a + b, id) == WithoutId(a, id) + WithoutId(b, id)
  {
    if a == [] {
      assert a + b == b;
    } else {
      assert (a + b)[1..] == a[1..] + b;
      WithoutIdAppend(a[1..], b, id);
    }
  }

  /** Deleting an id that no row carries leaves the list as it was. */
  lemma {:induction false} WithoutAbsentId(ms: seq<Match>, id: string)
    requires forall i :: 0 <= i < |ms| ==> ms[i].id != id
    ensures WithoutId(ms, id) == ms
  {
    if ms != [] {
      WithoutAbsentId(ms[1..], id);
    }
  }

  /** `matches.map((m) => (m.id === match.id ? match : m))`. */
  function ReplaceById(ms: seq<Match>, m: Match): (r: seq<Match>)
    ensures |r| == |ms|
    ensures forall i :: 0 <= i < |ms| ==> r[i] == if ms[i].id == m.id then m else ms[i]
  {
    if ms == [] then []
    else [if ms[0].id == m.id then m else ms[0]] + ReplaceById(ms[1..], m)
  }

  /** Saving a row whose id is absent changes nothing. */
  lemma ReplaceAbsentId(ms: seq<Match>, m: Match)
    requires forall i :: 0 <= i < |ms| ==> ms[i].id != m.id
    ensures ReplaceById(ms, m) == ms
  {
  }

  /** Saving an edited row does not change what deleting its id leaves behind. */
  lemma {:induction false} DeleteAfterReplace(ms: seq<Match>, m: Match)
    ensures WithoutId(ReplaceById(ms, m), m.id) == WithoutId(ms, m.id)
  {
    if ms != [] {
      var r := ReplaceById(ms, m);
      assert r[1..] == ReplaceById(ms[1..], m);
      DeleteAfterReplace(ms[1..], m);
    }
  }

  /** Adding a new row and deleting it again gives the list back. */
  lemma DeleteAfterAdd(ms: seq<Match>, m: Match)
    requires forall i :: 0 <= i < |ms| ==> ms[i].id != m.id
    ensures WithoutId(ms + [m], m.id) == ms
  {
    WithoutIdAppend(ms, [m], m.id);
    WithoutAbsentId(ms, m.id);
    assert WithoutId([m], m.id) == [];
  }

  /** The date column's `filterFn`: an empty value lets every row through, otherwise the row's year printed in decimal must equal it. */
  predicate DateColumnFilter(row: Match, value: string)
  {
    value == "" || IntToString(row.date.year) == value
  }

  lemma DateColumnFilterIff(row: Match, year: int)
    ensures DateColumnFilter(row, IntToString(year)) <==> row.date.year == year
    ensures DateColumnFilter(row, "")
  {
    if IntToString(row.date.year) == IntToString(year) {
      IntToStringInjective(row.date.year, year);
    }
    assert IntToString(year) != "" by {
      assert |IntToString(year)| >= 1;
    }
  }

  /** The page's state: the rows, whether the dialog is open, and the row being edited. */
  class MatchPage {
    var matches: seq<Match>
    var dialogOpen: bool
    var editingMatch: Option<Match>

    constructor(initial: seq<Match>)
      ensures matches == initial && !dialogOpen && editingMatch == None
    {
      matches := initial;
      dialogOpen := false;
      editingMatch := None;
    }

    /** `handleAddMatch`. */
    method AddMatch()
      modifies this
      ensures editingMatch == None && dialogOpen
      ensures matches == old(matches)
    {
      editingMatch := None;
      dialogOpen := true;
    }

    /** `handleEditMatch`. */
    method EditMatch(m: Match)
      modifies this
      ensures editingMatch == Some(m) && dialogOpen
      ensures matches == old(matches)
    {
      editingMatch := Some(m);
      dialogOpen := true;
    }

    /** `handleDeleteMatch`; `confirmed` is the user's answer to the confirmation prompt. */
    method DeleteMatch(id: string, confirmed: bool)
      modifies this
      ensures matches == if confirmed then WithoutId(old(matches), id) else old(matches)
      ensures dialogOpen == old(dialogOpen) && editingMatch == old(editingMatch)
    {
      if confirmed {
        matches := WithoutId(matches, id);
      }
    }

    /** `handleSaveMatch`: replaces by id while editing, appends otherwise. */
    method SaveMatch(m: Match)
      modifies this
      ensures old(editingMatch).Some? ==> matches == ReplaceById(old(matches), m)
      ensures old(editingMatch).None? ==> matches == old(matches) + [m]
      ensures dialogOpen == old(dialogOpen) && editingMatch == old(editingMatch)
    {
      if editingMatch.Some? {
        matches := ReplaceById(matches, m);
      } else {
        matches := matches + [m];
      }
    }
  }
}

/**
 `apply_company_mappings` of the table updater: rewrite the first column
 of a sheet through the selected company's rows of the mapping table.
 */
module CompanyMappings {
  import opened Chars
  import opened Seqs
  import opened Text
  import opened Normalize

  /** One row of the mapping table, columns `Company`, `Original`, `Mapped`. */
  datatype MappingRow = MappingRow(company: Str, original: Str, mapped: Str)

  datatype Option<T> = None | Some(value: T) {
    function GetOr(default: T): T {
      match this
      case Some(v) => v
      case None => default
    }
  }

  /** A sheet as read from the uploaded workbook: `width` columns and the
      data rows, each a sequence of cells. */
  datatype Grid = Grid(width: nat, rows: seq<seq<Str>>)

  /** A DataFrame: every row holds one cell per column. */
  type Table = g: Grid | forall i :: 0 <= i < |g.rows| ==> |g.rows[i]| == g.width
    witness Grid(0, [])

  /** `df.empty or df.columns.empty`. */
  predicate IsEmpty(t: Table) {
    t.width == 0 || |t.rows| == 0
  }

  /** The mask `mapping_df['Company'].str.lower() == company.lower()`. */
  function MatchesCompany(company: Str): MappingRow -> bool {
    (row: MappingRow) => LowerText(row.company) == LowerText(company)
  }

  /** `company_map`: the mapping rows of the selected company, in table order. */
  function SelectCompany(mappings: seq<MappingRow>, company: Str): (sel: seq<MappingRow>)
    ensures IsSubsequence(sel, mappings)
    ensures forall i :: 0 <= i < |sel| ==> LowerText(sel[i].company) == LowerText(company)
    ensures |sel| == Count(mappings, MatchesCompany(company))
    ensures |sel| == 0 <==> forall i :: 0 <= i < |mappings| ==> LowerText(mappings[i].company) != LowerText(company)
  {
    var p := MatchesCompany(company);
    FilterIsSubsequence(mappings, p);
    FilterMembers(mappings, p);
    Filter(mappings, p)
  }

  /** The dictionary key of a mapping row: its normalised `Original`. */
  function Key(row: MappingRow): Str {
    NormalizeItem(row.original)
  }

  /** One item of the dictionary comprehension: a key and its value. */
  datatype Entry = Entry(key: Str, mapped: Str)

  /** The item `normalize_item(row['Original']): row['Mapped']`. */
  function EntryOf(row: MappingRow): Entry {
    Entry(Key(row), row.mapped)
  }

  /** The items of the dictionary comprehension, in row order. */
  function Entries(sel: seq<MappingRow>): (es: seq<Entry>)
    ensures |es| == |sel|
  {
    Map(EntryOf, sel)
  }

  function Lookup(d: map<Str, Str>, k: Str): Option<Str> {
    if k in d then Some(d[k]) else None
  }

  /** Reference definition of the lookup: search the entries from the last
      one backwards for one whose key is `k`. */
  function FindLast(es: seq<Entry>, k: Str): Option<Str> {
    if |es| == 0 then None
    else if es[|es| - 1].key == k then Some(es[|es| - 1].mapped)
    else FindLast(es[..|es| - 1], k)
  }

  /** `FindLast` finds nothing exactly when no entry has key `k`. */
  lemma {:induction false} FindLastNone(es: seq<Entry>, k: Str)
    ensures FindLast(es, k).None? <==> forall i :: 0 <= i < |es| ==> es[i].key != k
  {
    if |es| > 0 {
      var init := es[..|es| - 1];
      FindLastNone(init, k);
      assert forall i :: 0 <= i < |init| ==> init[i] == es[i];
    }
  }

  /** `FindLast` finds the value of the last entry whose key is `k`. */
  lemma {:induction false} FindLastIsLastMatch(es: seq<Entry>, k: Str, i: nat)
    requires i < |es| && es[i].key == k
    requires forall j :: i < j < |es| ==> es[j].key != k
    ensures FindLast(es, k) == Some(es[i].mapped)
  {
    if i < |es| - 1 {
      var init := es[..|es| - 1];
      assert es[|es| - 1].key != k;
      FindLastIsLastMatch(init, k, i);
    }
  }

  /** Entries after the last match do not change what `FindLast` finds. */
  lemma {:induction false} FindLastSkipsSuffix(a: seq<Entry>, b: seq<Entry>, k: Str)
    requires forall i :: 0 <= i < |b| ==> b[i].key != k
    ensures FindLast(a + b, k) == FindLast(a, k)
    decreases |b|
  {
    if |b| == 0 {
      assert a + b == a;
    } else {
      var b' := b[..|b| - 1];
      assert (a + b)[..|a + b| - 1] == a + b';
      assert (a + b)[|a + b| - 1] == b[|b| - 1];
      FindLastSkipsSuffix(a, b', k);
    }
  }

  /** Looking at the first entry: a later entry with the same key hides it. */
  lemma {:induction false} FindLastFront(es: seq<Entry>, k: Str)
    requires |es| > 0
    ensures FindLast(es, k) ==
      if FindLast(es[1..], k).Some? then FindLast(es[1..], k)
      else if es[0].key == k then Some(es[0].mapped)
      else None
    decreases |es|
  {
    if |es| > 1 {
      var init := es[..|es| - 1];
      assert es[1..][..|es| - 2] == init[1..];
      assert es[1..][|es| - 2] == es[|es| - 1];
      assert init[0] == es[0];
      FindLastFront(init, k);
    }
  }

  /** The dictionary comprehension of lines 54-57 as a left fold: each entry
      overwrites the value stored for its key. */
  function FoldEntries(acc: map<Str, Str>, es: seq<Entry>): (d: map<Str, Str>)
    ensures forall k :: Lookup(d, k) == if FindLast(es, k).Some? then FindLast(es, k) else Lookup(acc, k)
    decreases |es|
  {
    if |es| == 0 then acc
    else
      var acc' := acc[es[0].key := es[0].mapped];
      var d := FoldEntries(acc', es[1..]);
      assert forall k :: Lookup(d, k) == if FindLast(es, k).Some? then FindLast(es, k) else Lookup(acc, k) by {
        forall k ensures Lookup(d, k) == if FindLast(es, k).Some? then FindLast(es, k) else Lookup(acc, k) {
          FindLastFront(es, k);
        }
      }
      d
  }

  /** `replace_dict`: looking a key up finds what the backwards search of
      the entries finds. */
  function BuildReplaceDict(sel: seq<MappingRow>): (d: map<Str, Str>)
    ensures forall k :: Lookup(d, k) == FindLast(Entries(sel), k)
  {
    FoldEntries(map[], Entries(sel))
  }

  /** The keys of `replace_dict` are exactly the rows' keys. */
  lemma ReplaceDictKeys(sel: seq<MappingRow>, k: Str)
    ensures k in BuildReplaceDict(sel) <==> exists i :: 0 <= i < |sel| && Key(sel[i]) == k
  {
    var es := Entries(sel);
    FindLastNone(es, k);
    assert k in BuildReplaceDict(sel) <==> FindLast(es, k).Some? by {
      assert Lookup(BuildReplaceDict(sel), k) == FindLast(es, k);
    }
    EntryKeysAbsent(sel, k);
  }

  /** No entry has key `k` exactly when no row has key `k`. */
  lemma EntryKeysAbsent(sel: seq<MappingRow>, k: Str)
    ensures (forall i :: 0 <= i < |sel| ==> Entries(sel)[i].key != k) <==>
            (forall i :: 0 <= i < |sel| ==> Key(sel[i]) != k)
  {
    var es := Entries(sel);
    if forall i :: 0 <= i < |sel| ==> es[i].key != k {
      forall i | 0 <= i < |sel|
        ensures Key(sel[i]) != k
      {
        assert es[i].key != k;
      }
    } else {
      var i :| 0 <= i < |sel| && es[i].key == k;
      assert Key(sel[i]) == k;
    }
  }

  /** For each key of `replace_dict` the last row with that key wins. */
  lemma ReplaceDictLastWins(sel: seq<MappingRow>, k: Str, i: nat)
    requires i < |sel| && Key(sel[i]) == k
    requires forall j :: i < j < |sel| ==> Key(sel[j]) != k
    ensures k in BuildReplaceDict(sel) && BuildReplaceDict(sel)[k] == sel[i].mapped
  {
    var es := Entries(sel);
    assert forall j :: i < j < |es| ==> es[j].key != k;
    FindLastIsLastMatch(es, k, i);
    assert Lookup(BuildReplaceDict(sel), k) == FindLast(es, k);
  }

  /** The lambda of line 60: `replace_dict.get(normalize_item(x), x)`. */
  function RewriteCell(d: map<Str, Str>, x: Str): Str {
    var k := NormalizeItem(x);
    if k in d then d[k] else x
  }

  function RewriteRow(d: map<Str, Str>, row: seq<Str>): (r: seq<Str>)
    ensures |r| == |row|
  {
    if |row| == 0 then row else [RewriteCell(d, row[0])] + row[1..]
  }

  /** Line 60 applied to every row: only the first cell of a row changes. */
  function RewriteFirstColumn(t: Table, d: map<Str, Str>): (r: Table)
    ensures r.width == t.width && |r.rows| == |t.rows|
  {
    Grid(t.width, seq(|t.rows|, i requires 0 <= i < |t.rows| => RewriteRow(d, t.rows[i])))
  }

  /** Each cell of `r`'s first column is what the backwards search of `es`
      finds for the cell of `t` under its normalised key, or the cell of `t`
      verbatim; every other cell is the cell of `t`. */
  predicate FirstColumnMapped(t: Table, r: Table, es: seq<Entry>)
    requires r.width == t.width && |r.rows| == |t.rows|
  {
    forall i :: 0 <= i < |t.rows| && t.width > 0 ==>
      && r.rows[i][1..] == t.rows[i][1..]
      && r.rows[i][0] == FindLast(es, NormalizeItem(t.rows[i][0])).GetOr(t.rows[i][0])
  }

  lemma RewriteFirstColumnMaps(t: Table, sel: seq<MappingRow>)
    ensures FirstColumnMapped(t, RewriteFirstColumn(t, BuildReplaceDict(sel)), Entries(sel))
  {
    var d := BuildReplaceDict(sel);
    var r := RewriteFirstColumn(t, d);
    forall i | 0 <= i < |t.rows| && t.width > 0
      ensures r.rows[i][0] == FindLast(Entries(sel), NormalizeItem(t.rows[i][0])).GetOr(t.rows[i][0])
    {
      assert Lookup(d, NormalizeItem(t.rows[i][0])) == FindLast(Entries(sel), NormalizeItem(t.rows[i][0]));
    }
  }

  /** With nothing to find, every cell stays as it is. */
  lemma NoEntriesKeepTable(t: Table)
    ensures FirstColumnMapped(t, t, [])
  {
  }

  /** `apply_company_mappings(df, company, mapping_df)`. */
  function ApplyCompanyMappings(t: Table, company: Str, mappings: seq<MappingRow>): (r: Table)
    ensures r.width == t.width && |r.rows| == |t.rows|
    ensures IsEmpty(t) ==> r == t
    ensures (forall i :: 0 <= i < |mappings| ==> LowerText(mappings[i].company) != LowerText(company)) ==> r == t
    ensures FirstColumnMapped(t, r, Entries(SelectCompany(mappings, company)))
  {
    var sel := SelectCompany(mappings, company);
    if IsEmpty(t) then t
    else if |sel| == 0 then
      NoEntriesKeepTable(t);
      t
    else
      RewriteFirstColumnMaps(t, sel);
      RewriteFirstColumn(t, BuildReplaceDict(sel))
  }

  lemma EntriesAppend(a: seq<MappingRow>, b: seq<MappingRow>)
    ensures Entries(a + b) == Entries(a) + Entries(b)
  {
    MapAppend(EntryOf, a, b);
  }

  /** A mapping row of another company never affects the result: removing
      it anywhere from the mapping table gives the same table back. */
  lemma OtherCompanyRowIgnored(t: Table, company: Str, before: seq<MappingRow>, row: MappingRow, after: seq<MappingRow>)
    requires LowerText(row.company) != LowerText(company)
    ensures ApplyCompanyMappings(t, company, before + [row] + after) == ApplyCompanyMappings(t, company, before + after)
  {
    SelectionIgnoresRow(company, before, row, after);
    SameSelectionSameResult(t, company, before + [row] + after, before + after);
  }

  lemma SameSelectionSameResult(t: Table, company: Str, m1: seq<MappingRow>, m2: seq<MappingRow>)
    requires SelectCompany(m1, company) == SelectCompany(m2, company)
    ensures ApplyCompanyMappings(t, company, m1) == ApplyCompanyMappings(t, company, m2)
  {
  }

  lemma SelectionIgnoresRow(company: Str, before: seq<MappingRow>, row: MappingRow, after: seq<MappingRow>)
    requires LowerText(row.company) != LowerText(company)
    ensures SelectCompany(before + [row] + after, company) == SelectCompany(before + after, company)
  {
    var p := MatchesCompany(company);
    var tail := [row] + after;
    assert before + [row] + after == before + tail;
    FilterAppend(before, tail, p);
    assert tail[1..] == after;
    assert Filter(tail, p) == Filter(after, p);
    FilterAppend(before, after, p);
  }

  /** The company is matched ignoring case. */
  lemma CompanyCaseInsensitive(t: Table, company: Str, mappings: seq<MappingRow>)
    ensures ApplyCompanyMappings(t, LowerText(company), mappings) == ApplyCompanyMappings(t, company, mappings)
  {
    LowerTextIdempotent(company);
    FilterSamePredicate(mappings, MatchesCompany(LowerText(company)), MatchesCompany(company));
  }

  /** A first-column cell whose key no row of the selected company has is
      kept verbatim, not normalised. */
  lemma UnmatchedCellVerbatim(t: Table, company: Str, mappings: seq<MappingRow>, i: nat)
    requires i < |t.rows| && t.width > 0
    requires forall j :: 0 <= j < |mappings| && LowerText(mappings[j].company) == LowerText(company)
                         ==> Key(mappings[j]) != NormalizeItem(t.rows[i][0])
    ensures ApplyCompanyMappings(t, company, mappings).rows[i][0] == t.rows[i][0]
  {
    var k := NormalizeItem(t.rows[i][0]);
    var p := MatchesCompany(company);
    var sel := SelectCompany(mappings, company);
    FilterMembers(mappings, p);
    var es := Entries(sel);
    forall l | 0 <= l < |es| ensures es[l].key != k {
      assert sel[l] in mappings && p(sel[l]);
    }
    FindLastNone(es, k);
  }

  /** Among the selected company's rows whose `Original` normalises to the
      cell's key, the last one in the mapping table supplies the new cell. */
  lemma LastMatchingRowWins(t: Table, company: Str, mappings: seq<MappingRow>, i: nat, m: nat)
    requires i < |t.rows| && t.width > 0
    requires m < |mappings| && LowerText(mappings[m].company) == LowerText(company)
    requires Key(mappings[m]) == NormalizeItem(t.rows[i][0])
    requires forall j :: m < j < |mappings| && LowerText(mappings[j].company) == LowerText(company)
                         ==> Key(mappings[j]) != NormalizeItem(t.rows[i][0])
    ensures ApplyCompanyMappings(t, company, mappings).rows[i][0] == mappings[m].mapped
  {
    SelectedLastMatch(mappings, company, m, NormalizeItem(t.rows[i][0]));
    CellFound(t, company, mappings, i, mappings[m].mapped);
  }

  /** The backwards search of the selected entries for `k` stops at row `m`
      when no selected row after it has key `k`. */
  lemma SelectedLastMatch(mappings: seq<MappingRow>, company: Str, m: nat, k: Str)
    requires m < |mappings| && LowerText(mappings[m].company) == LowerText(company)
    requires Key(mappings[m]) == k
    requires forall j :: m < j < |mappings| && LowerText(mappings[j].company) == LowerText(company)
                         ==> Key(mappings[j]) != k
    ensures FindLast(Entries(SelectCompany(mappings, company)), k) == Some(mappings[m].mapped)
  {
    var p := MatchesCompany(company);
    var a := Filter(mappings[..m], p) + [mappings[m]];
    var b := Filter(mappings[m + 1..], p);
    FilterSplitAt(mappings, p, m);
    EntriesAppend(a, b);
    LaterRowsOtherKeys(mappings, company, m, k);
    EntriesOtherKeys(b, k);
    var ea, eb := Entries(a), Entries(b);
    assert ea[|ea| - 1] == EntryOf(mappings[m]);
    LastEntryWins(ea, eb, k, mappings[m].mapped);
  }

  lemma EntriesOtherKeys(rows: seq<MappingRow>, k: Str)
    requires forall l :: 0 <= l < |rows| ==> Key(rows[l]) != k
    ensures forall l :: 0 <= l < |rows| ==> Entries(rows)[l].key != k
  {
  }

  /** An entry for `k` followed only by entries for other keys is what the
      backwards search finds. */
  lemma LastEntryWins(ea: seq<Entry>, eb: seq<Entry>, k: Str, v: Str)
    requires |ea| > 0 && ea[|ea| - 1] == Entry(k, v)
    requires forall l :: 0 <= l < |eb| ==> eb[l].key != k
    ensures FindLast(ea + eb, k) == Some(v)
  {
    FindLastSkipsSuffix(ea, eb, k);
    FindLastIsLastMatch(ea, k, |ea| - 1);
  }

  /** A first-column cell for which the search finds a value becomes that value. */
  lemma CellFound(t: Table, company: Str, mappings: seq<MappingRow>, i: nat, v: Str)
    requires i < |t.rows| && t.width > 0
    requires FindLast(Entries(SelectCompany(mappings, company)), NormalizeItem(t.rows[i][0])) == Some(v)
    ensures ApplyCompanyMappings(t, company, mappings).rows[i][0] == v
  {
    var r := ApplyCompanyMappings(t, company, mappings);
    assert FirstColumnMapped(t, r, Entries(SelectCompany(mappings, company)));
  }

  /** When no selected row after position `m` has key `k`, neither does
      any row the selection keeps from that part of the table. */
  lemma LaterRowsOtherKeys(mappings: seq<MappingRow>, company: Str, m: nat, k: Str)
    requires m < |mappings|
    requires forall j :: m < j < |mappings| && LowerText(mappings[j].company) == LowerText(company)
                         ==> Key(mappings[j]) != k
    ensures var b := Filter(mappings[m + 1..], MatchesCompany(company));
            forall l :: 0 <= l < |b| ==> Key(b[l]) != k
  {
    var p := MatchesCompany(company);
    var back := mappings[m + 1..];
    var b := Filter(back, p);
    FilterMembers(back, p);
    forall l | 0 <= l < |b|
      ensures Key(b[l]) != k
    {
      assert b[l] in back && p(b[l]);
    }
  }
}

/** Completion items as the language server returns them, and the two loops
    that turn them into the fields to fill: the simple filter of
    src/extension.ts and the deduplicating filter of out/extension.js, which
    also skips fields the literal already sets. */
module Completion {
  import opened Options
  import opened Text
  import opened Patterns
  import opened GoFields

  /** Only the `Field` kind matters to the command. */
  datatype ItemKind = FieldKind | OtherKind

  /** A completion item: its label, its kind and its optional detail text,
      which for a field is the field's type. */
  datatype CompletionItem = CompletionItem(labelText: string, kind: ItemKind, detail: Option<string>)

  /** What the completion provider returned: no usable item list (nothing,
      or a value without an `items` array), or the list of items. */
  datatype CompletionResult = NoItemList | ItemList(items: seq<CompletionItem>)

  /** `item.detail || ''`. */
  function DetailText(item: CompletionItem): string {
    match item.detail
    case Some(d) => d
    case None => ""
  }

  /** The field read off an item: the type without its first `*`, and
      `isPointer` when the detail starts with `*`. */
  function FieldOf(item: CompletionItem): GoField {
    GoField(item.labelText, RemoveFirst(DetailText(item), '*'), StartsWith(DetailText(item), "*"), false)
  }

  /** The names of a list of fields. */
  function Names(fields: seq<GoField>): set<string> {
    set k | 0 <= k < |fields| :: fields[k].name
  }

  lemma NamesSnoc(fields: seq<GoField>, f: GoField)
    ensures Names(fields + [f]) == Names(fields) + {f.name}
  {
    var r := fields + [f];
    assert r[|fields|] == f;
    forall n | n in Names(r) ensures n in Names(fields) + {f.name} {
      var k :| 0 <= k < |r| && r[k].name == n;
      if k < |fields| { assert r[k] == fields[k]; }
    }
    forall n | n in Names(fields) ensures n in Names(r) {
      var k :| 0 <= k < |fields| && fields[k].name == n;
      assert r[k] == fields[k];
    }
  }

  // ---------------------------------------------------------------------
  // src/extension.ts: the filter of the fill command
  // ---------------------------------------------------------------------

  /** An item the filter keeps: a field whose label has no `.`. */
  predicate SrcKeeps(item: CompletionItem) {
    item.kind == FieldKind && '.' !in item.labelText
  }

  /** The fields the loop collects from the first `|items|` items. */
  function SrcFields(items: seq<CompletionItem>): seq<GoField>
    decreases |items|
  {
    if items == [] then []
    else
      var last := items[|items| - 1];
      SrcFields(items[..|items| - 1]) + (if SrcKeeps(last) then [FieldOf(last)] else [])
  }

  /** The `for` loop over the completion items. */
  method CollectFields(items: seq<CompletionItem>) returns (fields: seq<GoField>)
    ensures fields == SrcFields(items)
  {
    fields := [];
    var i := 0;
    while i < |items|
      invariant 0 <= i <= |items|
      invariant fields == SrcFields(items[..i])
    {
      var item := items[i];
      assert items[..i + 1][..i] == items[..i];
      if item.kind == FieldKind && '.' !in item.labelText {
        fields := fields + [FieldOf(item)];
      }
      i := i + 1;
    }
    assert items[..|items|] == items;
  }

  /** The item at position `idx[k]` is kept and gives the field `r[k]`. */
  predicate SrcPick(items: seq<CompletionItem>, r: seq<GoField>, idx: seq<nat>, k: nat) {
    k < |idx| && k < |r| && idx[k] < |items| && SrcKeeps(items[idx[k]]) && r[k] == FieldOf(items[idx[k]])
  }

  /** Position `i` is among those listed in `idx`. */
  predicate Listed(idx: seq<nat>, i: nat) {
    i in idx
  }

  /** Each position in `idx` is a kept item whose field is at the same place in `r`. */
  predicate SrcPicks(items: seq<CompletionItem>, r: seq<GoField>, idx: seq<nat>) {
    |idx| == |r| && forall k: nat :: k < |idx| ==> SrcPick(items, r, idx, k)
  }

  /** Every kept item is listed. */
  predicate ListsKept(items: seq<CompletionItem>, idx: seq<nat>) {
    forall i: nat :: i < |items| && SrcKeeps(items[i]) ==> Listed(idx, i)
  }

  /** `idx` lists, in increasing order, the positions of the kept items,
      and `r` holds their fields in that order. */
  predicate SrcSelects(items: seq<CompletionItem>, r: seq<GoField>, idx: seq<nat>) {
    SrcPicks(items, r, idx) && Increasing(idx) && ListsKept(items, idx)
  }

  lemma SrcPicksKept(items: seq<CompletionItem>, pr: seq<GoField>, prev: seq<nat>)
    requires items != [] && SrcPicks(items[..|items| - 1], pr, prev)
    requires SrcKeeps(items[|items| - 1])
    ensures SrcPicks(items, pr + [FieldOf(items[|items| - 1])], prev + [|items| - 1])
  {
    var n := |items| - 1;
    var prefix := items[..n];
    var r, idx := pr + [FieldOf(items[n])], prev + [n];
    forall k: nat | k < |idx| ensures SrcPick(items, r, idx, k) {
      if k < |prev| {
        assert SrcPick(prefix, pr, prev, k);
        assert idx[k] == prev[k] && r[k] == pr[k] && prefix[prev[k]] == items[prev[k]];
      }
    }
  }

  lemma IncreasingKept(n: nat, pr: seq<GoField>, prev: seq<nat>, prefix: seq<CompletionItem>)
    requires |prefix| == n && SrcPicks(prefix, pr, prev) && Increasing(prev)
    ensures Increasing(prev + [n])
  {
    var idx := prev + [n];
    forall k, l | 0 <= k < l < |idx| ensures idx[k] < idx[l] {
      assert SrcPick(prefix, pr, prev, k);
      if l < |prev| {
        assert idx[k] == prev[k] && idx[l] == prev[l];
      }
    }
  }

  lemma ListsKeptKept(items: seq<CompletionItem>, prev: seq<nat>)
    requires items != [] && ListsKept(items[..|items| - 1], prev)
    ensures ListsKept(items, prev + [|items| - 1])
  {
    var n := |items| - 1;
    var prefix := items[..n];
    var idx := prev + [n];
    forall i: nat | i < |items| && SrcKeeps(items[i]) ensures Listed(idx, i) {
      if i < n {
        assert prefix[i] == items[i];
        assert Listed(prev, i);
      } else {
        assert idx[|prev|] == n;
      }
    }
  }

  lemma SrcSelectsKept(items: seq<CompletionItem>, pr: seq<GoField>, prev: seq<nat>)
    requires items != [] && SrcSelects(items[..|items| - 1], pr, prev)
    requires SrcKeeps(items[|items| - 1])
    ensures SrcSelects(items, pr + [FieldOf(items[|items| - 1])], prev + [|items| - 1])
  {
    SrcPicksKept(items, pr, prev);
    IncreasingKept(|items| - 1, pr, prev, items[..|items| - 1]);
    ListsKeptKept(items, prev);
  }

  lemma SrcSelectsSkipped(items: seq<CompletionItem>, pr: seq<GoField>, prev: seq<nat>)
    requires items != [] && SrcSelects(items[..|items| - 1], pr, prev)
    requires !SrcKeeps(items[|items| - 1])
    ensures SrcSelects(items, pr, prev)
  {
    var n := |items| - 1;
    var prefix := items[..n];
    forall k: nat | k < |prev| ensures SrcPick(items, pr, prev, k) {
      assert SrcPick(prefix, pr, prev, k);
      assert prefix[prev[k]] == items[prev[k]];
    }
    forall i: nat | i < |items| && SrcKeeps(items[i]) ensures Listed(prev, i) {
      assert prefix[i] == items[i];
    }
  }

  /** The collected fields are exactly those of the kept items, in item
      order: `idx` lists the positions of the kept items. */
  lemma {:induction false} SrcFieldsSelect(items: seq<CompletionItem>) returns (idx: seq<nat>)
    ensures SrcSelects(items, SrcFields(items), idx)
    decreases |items|
  {
    if items == [] {
      idx := [];
    } else {
      var n := |items| - 1;
      var prev := SrcFieldsSelect(items[..n]);
      if SrcKeeps(items[n]) {
        SrcSelectsKept(items, SrcFields(items[..n]), prev);
        idx := prev + [n];
      } else {
        SrcSelectsSkipped(items, SrcFields(items[..n]), prev);
        assert SrcFields(items) == SrcFields(items[..n]) + [] == SrcFields(items[..n]);
        idx := prev;
      }
    }
  }

  // ---------------------------------------------------------------------
  // out/extension.js: the filter of the fill command
  // ---------------------------------------------------------------------

  /** An item eligible on its own: a field whose label has no `.` and that
      the existing text does not already set. */
  predicate OutKeeps(item: CompletionItem, existing: string) {
    item.kind == FieldKind && '.' !in item.labelText && !MentionsKey(existing, item.labelText)
  }

  /** The fields the loop collects from the items: an eligible item is kept
      unless a field of the same name was kept before it. */
  function NewFields(items: seq<CompletionItem>, existing: string): seq<GoField>
    decreases |items|
  {
    if items == [] then []
    else
      var prev := NewFields(items[..|items| - 1], existing);
      var last := items[|items| - 1];
      if last.kind == FieldKind && last.labelText !in Names(prev) && '.' !in last.labelText
         && !MentionsKey(existing, last.labelText)
      then prev + [FieldOf(last)]
      else prev
  }

  /** The `for` loop with its `processedFields` set. The text searched for
      existing keys does not change inside the loop and is computed by the
      caller. */
  method CollectNewFields(items: seq<CompletionItem>, existing: string) returns (fields: seq<GoField>)
    ensures fields == NewFields(items, existing)
  {
    fields := [];
    var processed: set<string> := {};
    var i := 0;
    while i < |items|
      invariant 0 <= i <= |items|
      invariant fields == NewFields(items[..i], existing)
      invariant processed == Names(fields)
    {
      var item := items[i];
      assert items[..i + 1][..i] == items[..i];
      if item.kind == FieldKind && item.labelText !in processed && '.' !in item.labelText
         && !MentionsKey(existing, item.labelText) {
        NamesSnoc(fields, FieldOf(item));
        fields := fields + [FieldOf(item)];
        processed := processed + {item.labelText};
      }
      i := i + 1;
    }
    assert items[..|items|] == items;
  }

  /** The item at position `idx[k]` is eligible and gives the field `r[k]`. */
  predicate OutPick(items: seq<CompletionItem>, existing: string, r: seq<GoField>, idx: seq<nat>, k: nat) {
    k < |idx| && k < |r| && idx[k] < |items| && OutKeeps(items[idx[k]], existing) && r[k] == FieldOf(items[idx[k]])
  }

  /** Each position in `idx` is an eligible item whose field is the one at
      the same place in `r`, and the positions increase. */
  predicate Picks(items: seq<CompletionItem>, existing: string, r: seq<GoField>, idx: seq<nat>) {
    |idx| == |r| && (forall k: nat :: k < |idx| ==> OutPick(items, existing, r, idx, k)) && Increasing(idx)
  }

  /** No eligible item before position `p` has the label of the item at `p`. */
  predicate FirstAt(items: seq<CompletionItem>, existing: string, p: nat) {
    p < |items| ==>
      forall i :: 0 <= i < p && OutKeeps(items[i], existing) ==> items[i].labelText != items[p].labelText
  }

  /** Every picked item is the first eligible one with its label. */
  predicate FirstOfLabel(items: seq<CompletionItem>, existing: string, idx: seq<nat>) {
    forall k: nat :: k < |idx| ==> FirstAt(items, existing, idx[k])
  }

  /** The label of the item at `i`, when eligible, is among the names of `r`. */
  predicate CoveredAt(items: seq<CompletionItem>, existing: string, r: seq<GoField>, i: nat) {
    i < |items| && OutKeeps(items[i], existing) ==> items[i].labelText in Names(r)
  }

  /** Every eligible label is among the names of `r`. */
  predicate Covers(items: seq<CompletionItem>, existing: string, r: seq<GoField>) {
    forall i :: 0 <= i < |items| ==> CoveredAt(items, existing, r, i)
  }

  /** `idx` lists the items the collected fields `r` come from: each is
      eligible and the first eligible item with its label, they keep item
      order, and every eligible label is among the names of `r`. */
  predicate Selects(items: seq<CompletionItem>, existing: string, r: seq<GoField>, idx: seq<nat>) {
    Picks(items, existing, r, idx) && FirstOfLabel(items, existing, idx) && Covers(items, existing, r)
  }

  lemma PicksKept(items: seq<CompletionItem>, existing: string, prev: seq<GoField>, prevIdx: seq<nat>)
    requires items != [] && Picks(items[..|items| - 1], existing, prev, prevIdx)
    requires OutKeeps(items[|items| - 1], existing)
    ensures Picks(items, existing, prev + [FieldOf(items[|items| - 1])], prevIdx + [|items| - 1])
  {
    var n := |items| - 1;
    var prefix := items[..n];
    var r := prev + [FieldOf(items[n])];
    var idx := prevIdx + [n];
    forall k: nat | k < |idx| ensures OutPick(items, existing, r, idx, k) {
      if k < |prevIdx| {
        assert OutPick(prefix, existing, prev, prevIdx, k);
        assert idx[k] == prevIdx[k] && r[k] == prev[k] && prefix[prevIdx[k]] == items[prevIdx[k]];
      }
    }
    forall k, l | 0 <= k < l < |idx| ensures idx[k] < idx[l] {
      assert OutPick(prefix, existing, prev, prevIdx, k);
      if l < |prevIdx| {
        assert idx[k] == prevIdx[k] && idx[l] == prevIdx[l];
      }
    }
  }

  /** A label test that holds on the first `n` items holds on all of them. */
  lemma FirstAtExtends(items: seq<CompletionItem>, existing: string, p: nat)
    requires items != [] && p < |items| - 1 && FirstAt(items[..|items| - 1], existing, p)
    ensures FirstAt(items, existing, p)
  {
    var prefix := items[..|items| - 1];
    forall i | 0 <= i < p && OutKeeps(items[i], existing) ensures items[i].labelText != items[p].labelText {
      assert prefix[i] == items[i] && prefix[p] == items[p];
    }
  }

  lemma FirstOfLabelKept(items: seq<CompletionItem>, existing: string, prev: seq<GoField>, prevIdx: seq<nat>)
    requires items != [] && FirstOfLabel(items[..|items| - 1], existing, prevIdx)
    requires Covers(items[..|items| - 1], existing, prev)
    requires forall k :: 0 <= k < |prevIdx| ==> prevIdx[k] < |items| - 1
    requires items[|items| - 1].labelText !in Names(prev)
    ensures FirstOfLabel(items, existing, prevIdx + [|items| - 1])
  {
    var n := |items| - 1;
    var prefix := items[..n];
    var idx := prevIdx + [n];
    forall k: nat | k < |idx| ensures FirstAt(items, existing, idx[k]) {
      if k < |prevIdx| {
        assert idx[k] == prevIdx[k];
        FirstAtExtends(items, existing, prevIdx[k]);
      } else {
        forall i | 0 <= i < n && OutKeeps(items[i], existing) ensures items[i].labelText != items[n].labelText {
          assert CoveredAt(prefix, existing, prev, i);
          assert prefix[i] == items[i];
        }
      }
    }
  }

  lemma CoversKept(items: seq<CompletionItem>, existing: string, prev: seq<GoField>)
    requires items != [] && Covers(items[..|items| - 1], existing, prev)
    ensures Covers(items, existing, prev + [FieldOf(items[|items| - 1])])
  {
    var n := |items| - 1;
    var r := prev + [FieldOf(items[n])];
    NamesSnoc(prev, FieldOf(items[n]));
    forall i | 0 <= i < |items| ensures CoveredAt(items, existing, r, i) {
      if i < n {
        assert CoveredAt(items[..n], existing, prev, i);
        assert items[..n][i] == items[i];
      }
    }
  }

  lemma SelectsKept(items: seq<CompletionItem>, existing: string, prev: seq<GoField>, prevIdx: seq<nat>)
    requires items != [] && Selects(items[..|items| - 1], existing, prev, prevIdx)
    requires OutKeeps(items[|items| - 1], existing) && items[|items| - 1].labelText !in Names(prev)
    ensures Selects(items, existing, prev + [FieldOf(items[|items| - 1])], prevIdx + [|items| - 1])
  {
    PicksKept(items, existing, prev, prevIdx);
    forall k | 0 <= k < |prevIdx| ensures prevIdx[k] < |items| - 1 {
      assert OutPick(items[..|items| - 1], existing, prev, prevIdx, k);
    }
    FirstOfLabelKept(items, existing, prev, prevIdx);
    CoversKept(items, existing, prev);
  }

  lemma SelectsSkipped(items: seq<CompletionItem>, existing: string, prev: seq<GoField>, prevIdx: seq<nat>)
    requires items != [] && Selects(items[..|items| - 1], existing, prev, prevIdx)
    requires OutKeeps(items[|items| - 1], existing) ==> items[|items| - 1].labelText in Names(prev)
    ensures Selects(items, existing, prev, prevIdx)
  {
    var n := |items| - 1;
    var prefix := items[..n];
    forall k: nat | k < |prevIdx| ensures OutPick(items, existing, prev, prevIdx, k) && FirstAt(items, existing, prevIdx[k]) {
      assert OutPick(prefix, existing, prev, prevIdx, k);
      assert prefix[prevIdx[k]] == items[prevIdx[k]];
      FirstAtExtends(items, existing, prevIdx[k]);
    }
    forall i | 0 <= i < |items| ensures CoveredAt(items, existing, prev, i) {
      if i < n {
        assert CoveredAt(prefix, existing, prev, i);
        assert prefix[i] == items[i];
      }
    }
  }

  /** The collected fields are selected from the items as `Selects` says. */
  lemma {:induction false} NewFieldsSelect(items: seq<CompletionItem>, existing: string) returns (idx: seq<nat>)
    ensures Selects(items, existing, NewFields(items, existing), idx)
    decreases |items|
  {
    if items == [] {
      idx := [];
    } else {
      var n := |items| - 1;
      var prevIdx := NewFieldsSelect(items[..n], existing);
      var prev := NewFields(items[..n], existing);
      var last := items[n];
      if last.kind == FieldKind && last.labelText !in Names(prev) && '.' !in last.labelText
         && !MentionsKey(existing, last.labelText) {
        SelectsKept(items, existing, prev, prevIdx);
        idx := prevIdx + [n];
      } else {
        SelectsSkipped(items, existing, prev, prevIdx);
        idx := prevIdx;
      }
    }
  }

  /** The names of the collected fields are distinct, carry no `.`, and none
      is already set in the existing text. */
  lemma NewFieldsNames(items: seq<CompletionItem>, existing: string)
    ensures var r := NewFields(items, existing);
            (forall k, l :: 0 <= k < l < |r| ==> r[k].name != r[l].name)
            && (forall k :: 0 <= k < |r| ==> '.' !in r[k].name && !MentionsKey(existing, r[k].name))
  {
    var r := NewFields(items, existing);
    var idx := NewFieldsSelect(items, existing);
    forall k, l | 0 <= k < l < |r| ensures r[k].name != r[l].name {
      assert OutPick(items, existing, r, idx, k) && OutPick(items, existing, r, idx, l);
      assert idx[k] < idx[l];
      assert FirstAt(items, existing, idx[l]);
    }
    forall k | 0 <= k < |r| ensures '.' !in r[k].name && !MentionsKey(existing, r[k].name) {
      assert OutPick(items, existing, r, idx, k);
    }
  }
}

/**
 * `array2df(arr, dim_names, groups, value_name)`: melt an N-dimensional array into a long table
 * with one row per element: the element's value, then one label per dimension. The array is its
 * flat row-major contents plus its shape; the pandas DataFrame is a sequence of rows.
 */
module Melt {
  import opened Wrappers
  import opened Errors
  import opened GroupSpecs
  import opened RowMajor

  /** The letters of the default dimension names and labels; there are only eight. */
  const LETTERS: string := "ijklmnop"

  function DigitChar(n: nat): char
    requires n < 10
  {
    ('0' as int + n) as char
  }

  predicate IsDigit(c: char) { '0' <= c <= '9' }

  /** Python's `int(s)` for a string of decimal digits. */
  function ParseDecimal(s: string): nat
    requires forall i :: 0 <= i < |s| ==> IsDigit(s[i])
    decreases |s|
  {
    if s == [] then 0 else ParseDecimal(s[..|s| - 1]) * 10 + DigitValue(s[|s| - 1])
  }

  function DigitValue(c: char): nat
    requires IsDigit(c)
  {
    c as int - '0' as int
  }

  /** Python's `str(n)` for a natural number. */
  function DecimalString(n: nat): (s: string)
    ensures |s| > 0 && forall i :: 0 <= i < |s| ==> IsDigit(s[i])
    decreases n
  {
    if n < 10 then [DigitChar(n)] else DecimalString(n / 10) + [DigitChar(n % 10)]
  }

  /** `int(str(n)) == n`: the decimal representation loses nothing. */
  lemma {:induction false} ParseDecimalString(n: nat)
    ensures ParseDecimal(DecimalString(n)) == n
    decreases n
  {
    var s := DecimalString(n);
    if n >= 10 {
      ParseDecimalString(n / 10);
      assert s[..|s| - 1] == DecimalString(n / 10);
    } else {
      assert s[..0] == [];
    }
  }

  /** `groups`: a list with one group specification per dimension, or a dict from dimension to one. */
  datatype GroupsArg = GroupList(specs: seq<GroupSpec>) | GroupDict(entries: seq<(nat, GroupSpec)>)

  /** Normalised groups: for each dimension, position -> label. */
  type Groups = map<nat, map<int, string>>

  datatype Row = Row(value: int, labels: seq<string>)

  /** The melted table: its column names, then its rows in order. */
  datatype Table = Table(columns: seq<string>, rows: seq<Row>)

  /** The default `dim_names`: `dim_i`, `dim_j`, ... for the first eight dimensions only. */
  function DefaultNames(n: nat): map<nat, string>
  {
    map d | 0 <= d < n && d < |LETTERS| :: "dim_" + [LETTERS[d]]
  }

  function NamesOf(dimNames: Option<map<nat, string>>, n: nat): map<nat, string>
  {
    if dimNames.None? then DefaultNames(n) else dimNames.value
  }

  /** The default labels of dimension `d`: its letter followed by the position. */
  function DefaultLabels(d: nat, len: nat): map<int, string>
    requires len > 0 ==> d < |LETTERS|
  {
    map i | 0 <= i < len :: [LETTERS[d]] + DecimalString(i)
  }

  /**
   * The default `groups`. The letter of a dimension is looked up once per position, so only a
   * dimension beyond the eighth that has positions raises an `IndexError`.
   */
  function DefaultGroups(shape: seq<nat>): Result<Groups, Error>
  {
    if exists d :: |LETTERS| <= d < |shape| && shape[d] > 0 then Failure(LookupError)
    else Success(map d | 0 <= d < |shape| :: DefaultLabels(d, shape[d]))
  }

  /** The list form as (dimension, specification) entries. */
  function ListEntries(specs: seq<GroupSpec>): seq<(nat, GroupSpec)>
  {
    seq(|specs|, i requires 0 <= i < |specs| => (i, specs[i]))
  }

  /**
   * `_check_dict(groups[dim], shape[dim])` for each entry in turn, collected into `acc`;
   * a dimension the array does not have raises `IndexError` on `shape[dim]`.
   */
  function NormalizeEntries(entries: seq<(nat, GroupSpec)>, shape: seq<nat>, acc: Groups): (r: Result<Groups, Error>)
    decreases |entries|
  {
    if entries == [] then Success(acc)
    else
      var (dim, spec) := entries[0];
      if dim >= |shape| then Failure(LookupError)
      else
        match Normalized(spec, shape[dim])
        case Failure(e) => Failure(e)
        case Success(g) => NormalizeEntries(entries[1..], shape, acc[dim := g])
  }

  /** The groups `array2df` looks labels up in, or the error raised while building them. */
  function NormalizeGroups(groups: Option<GroupsArg>, shape: seq<nat>): (r: Result<Groups, Error>)
  {
    match groups
    case None => DefaultGroups(shape)
    case Some(GroupList(specs)) => NormalizeEntries(ListEntries(specs), shape, map[])
    case Some(GroupDict(entries)) => NormalizeEntries(entries, shape, map[])
  }

  /** The first `k` specifications of the list name dimensions of the array, and each passes `_check_dict`. */
  predicate Passes(specs: seq<GroupSpec>, shape: seq<nat>, k: nat)
  {
    && k <= |specs| && k <= |shape|
    && forall d :: 0 <= d < k ==> Normalized(specs[d], shape[d]).Success?
  }

  /** The normalised groups of the first `k` specifications of the list. */
  function ListedGroups(specs: seq<GroupSpec>, shape: seq<nat>, k: nat): Groups
    requires Passes(specs, shape, k)
  {
    map d | 0 <= d < k :: Normalized(specs[d], shape[d]).value
  }

  /**
   * Specification `d` of the list is the first to fail, with error `e`: the earlier ones pass, and
   * either the array has no dimension `d` (`shape[dim]` raises `IndexError`) or `_check_dict` raises `e`.
   */
  predicate FirstFailure(specs: seq<GroupSpec>, shape: seq<nat>, d: nat, e: Error)
  {
    && d < |specs|
    && Passes(specs, shape, d)
    && if d >= |shape| then e == LookupError else Normalized(specs[d], shape[d]) == Failure(e)
  }

  /** Normalising the list from specification `k` on, with the first `k` already collected. */
  lemma {:induction false} NormalizeListFrom(specs: seq<GroupSpec>, shape: seq<nat>, k: nat)
    requires Passes(specs, shape, k)
    ensures var r := NormalizeEntries(ListEntries(specs)[k..], shape, ListedGroups(specs, shape, k));
      && (r.Success? <==> Passes(specs, shape, |specs|))
      && (r.Success? ==> r.value == ListedGroups(specs, shape, |specs|))
      && (r.Failure? ==> exists d :: FirstFailure(specs, shape, d, r.error))
    decreases |specs| - k
  {
    var entries := ListEntries(specs)[k..];
    var acc := ListedGroups(specs, shape, k);
    if k < |specs| {
      assert entries[0] == (k, specs[k]) && entries[1..] == ListEntries(specs)[k + 1..];
      if k < |shape| && Normalized(specs[k], shape[k]).Success? {
        assert Passes(specs, shape, k + 1);
        assert acc[k := Normalized(specs[k], shape[k]).value] == ListedGroups(specs, shape, k + 1);
        NormalizeListFrom(specs, shape, k + 1);
      } else {
        var r := NormalizeEntries(entries, shape, acc);
        assert FirstFailure(specs, shape, k, r.error);
      }
    }
  }

  /**
   * The list form of `groups`: `array2df` gets groups exactly when the list names no dimension the
   * array lacks and every specification passes `_check_dict`; dimension `d` then maps as
   * `_check_dict(groups[d], shape[d])` does. Otherwise the error is that of the first failing one.
   */
  lemma NormalizeList(specs: seq<GroupSpec>, shape: seq<nat>)
    ensures var r := NormalizeGroups(Some(GroupList(specs)), shape);
      && (r.Success? <==> |specs| <= |shape| && forall d :: 0 <= d < |specs| ==> Normalized(specs[d], shape[d]).Success?)
      && (r.Success? ==> r.value == map d | 0 <= d < |specs| :: Normalized(specs[d], shape[d]).value)
      && (r.Failure? ==> exists d :: FirstFailure(specs, shape, d, r.error))
  {
    assert ListEntries(specs)[0..] == ListEntries(specs);
    assert ListedGroups(specs, shape, 0) == map[];
    NormalizeListFrom(specs, shape, 0);
  }

  /** Two lists whose specifications normalise alike, dimension by dimension, give the same groups. */
  lemma EquivalentListsAgree(specs: seq<GroupSpec>, specs': seq<GroupSpec>, shape: seq<nat>)
    requires |specs| == |specs'| <= |shape|
    requires forall d :: 0 <= d < |specs| ==> Normalized(specs[d], shape[d]) == Normalized(specs'[d], shape[d])
    ensures NormalizeGroups(Some(GroupList(specs)), shape).Success?
            <==> NormalizeGroups(Some(GroupList(specs')), shape).Success?
    ensures NormalizeGroups(Some(GroupList(specs)), shape).Success? ==>
            NormalizeGroups(Some(GroupList(specs)), shape) == NormalizeGroups(Some(GroupList(specs')), shape)
  {
    var n := |specs|;
    assert ListEntries(specs)[0..] == ListEntries(specs) && ListEntries(specs')[0..] == ListEntries(specs');
    assert ListedGroups(specs, shape, 0) == map[] == ListedGroups(specs', shape, 0);
    NormalizeListFrom(specs, shape, 0);
    NormalizeListFrom(specs', shape, 0);
    assert Passes(specs, shape, n) <==> Passes(specs', shape, n);
    if Passes(specs, shape, n) {
      assert ListedGroups(specs, shape, n) == ListedGroups(specs', shape, n);
    }
  }

  /** The entry names a dimension of the array, and its specification passes `_check_dict`. */
  predicate EntryPasses(shape: seq<nat>, entry: (nat, GroupSpec))
  {
    entry.0 < |shape| && Normalized(entry.1, shape[entry.0]).Success?
  }

  /** No later entry names the same dimension as entry `i`, so its result is the one kept. */
  predicate LastForKey(entries: seq<(nat, GroupSpec)>, i: int)
    requires 0 <= i < |entries|
  {
    forall j :: i < j < |entries| ==> entries[j].0 != entries[i].0
  }

  /** Entry `i` is the first to fail, with error `e`. */
  predicate FirstEntryFailure(entries: seq<(nat, GroupSpec)>, shape: seq<nat>, i: int, e: Error)
  {
    && 0 <= i < |entries|
    && (forall j :: 0 <= j < i ==> EntryPasses(shape, entries[j]))
    && var (dim, spec) := entries[i];
       if dim >= |shape| then e == LookupError else Normalized(spec, shape[dim]) == Failure(e)
  }

  /** Normalising dict entries succeeds exactly when every entry passes, and otherwise fails as the first failing entry does. */
  lemma {:induction false} DictOutcome(entries: seq<(nat, GroupSpec)>, shape: seq<nat>, acc: Groups)
    ensures var r := NormalizeEntries(entries, shape, acc);
      && (r.Success? <==> forall i :: 0 <= i < |entries| ==> EntryPasses(shape, entries[i]))
      && (r.Failure? ==> exists i :: FirstEntryFailure(entries, shape, i, r.error))
    decreases |entries|
  {
    if entries != [] {
      var (dim, spec) := entries[0];
      var rest := entries[1..];
      var r := NormalizeEntries(entries, shape, acc);
      assert forall i :: 0 < i < |entries| ==> entries[i] == rest[i - 1];
      if dim >= |shape| || Normalized(spec, shape[dim]).Failure? {
        assert FirstEntryFailure(entries, shape, 0, r.error);
      } else {
        var acc' := acc[dim := Normalized(spec, shape[dim]).value];
        DictOutcome(rest, shape, acc');
        assert r == NormalizeEntries(rest, shape, acc');
        if r.Failure? {
          var i :| FirstEntryFailure(rest, shape, i, r.error);
          assert FirstEntryFailure(entries, shape, i + 1, r.error);
        }
      }
    }
  }

  /** On success, the dimensions are those of `acc` and those the entries name. */
  lemma {:induction false} DictKeys(entries: seq<(nat, GroupSpec)>, shape: seq<nat>, acc: Groups, d: nat)
    ensures var r := NormalizeEntries(entries, shape, acc);
      r.Success? ==> (d in r.value <==> d in acc || exists i :: 0 <= i < |entries| && entries[i].0 == d)
    decreases |entries|
  {
    var r := NormalizeEntries(entries, shape, acc);
    if entries != [] && r.Success? {
      var (dim, spec) := entries[0];
      var rest := entries[1..];
      var acc' := acc[dim := Normalized(spec, shape[dim]).value];
      assert r == NormalizeEntries(rest, shape, acc');
      DictKeys(rest, shape, acc', d);
      if exists i :: 0 <= i < |rest| && rest[i].0 == d {
        var i :| 0 <= i < |rest| && rest[i].0 == d;
        assert entries[i + 1].0 == d;
      }
      if exists i :: 0 <= i < |entries| && entries[i].0 == d {
        var i :| 0 <= i < |entries| && entries[i].0 == d;
        assert i == 0 || rest[i - 1].0 == d;
      }
    }
  }

  /** On success, a dimension of `acc` that no entry names keeps its value. */
  lemma {:induction false} DictKeepsUnnamed(entries: seq<(nat, GroupSpec)>, shape: seq<nat>, acc: Groups, d: nat)
    ensures var r := NormalizeEntries(entries, shape, acc);
      r.Success? && d in acc && (forall i :: 0 <= i < |entries| ==> entries[i].0 != d) ==>
        d in r.value && r.value[d] == acc[d]
    decreases |entries|
  {
    var r := NormalizeEntries(entries, shape, acc);
    if entries != [] && r.Success? && d in acc && (forall i :: 0 <= i < |entries| ==> entries[i].0 != d) {
      var (dim, spec) := entries[0];
      var rest := entries[1..];
      var acc' := acc[dim := Normalized(spec, shape[dim]).value];
      assert r == NormalizeEntries(rest, shape, acc');
      assert entries[0].0 != d;
      forall k | 0 <= k < |rest| ensures rest[k].0 != d {
        assert rest[k] == entries[k + 1];
      }
      DictKeepsUnnamed(rest, shape, acc', d);
    }
  }

  /** On success, the dimension of an entry that no later entry names holds that entry's `_check_dict` result. */
  lemma {:induction false} DictLastWins(entries: seq<(nat, GroupSpec)>, shape: seq<nat>, acc: Groups, i: nat)
    requires i < |entries|
    ensures NormalizeEntries(entries, shape, acc).Success? ==> EntryPasses(shape, entries[i])
    ensures var r := NormalizeEntries(entries, shape, acc);
      r.Success? && LastForKey(entries, i) ==>
        && entries[i].0 in r.value
        && r.value[entries[i].0] == Normalized(entries[i].1, shape[entries[i].0]).value
    decreases |entries|
  {
    var r := NormalizeEntries(entries, shape, acc);
    DictOutcome(entries, shape, acc);
    if r.Success? && LastForKey(entries, i) {
      var (dim, spec) := entries[0];
      var rest := entries[1..];
      var acc' := acc[dim := Normalized(spec, shape[dim]).value];
      assert r == NormalizeEntries(rest, shape, acc');
      if i == 0 {
        forall k | 0 <= k < |rest| ensures rest[k].0 != dim {
          assert rest[k] == entries[k + 1];
        }
        DictKeepsUnnamed(rest, shape, acc', dim);
      } else {
        assert rest[i - 1] == entries[i];
        assert LastForKey(rest, i - 1) by {
          forall j | i - 1 < j < |rest| ensures rest[j].0 != rest[i - 1].0 {
            assert rest[j] == entries[j + 1];
          }
        }
        DictLastWins(rest, shape, acc', i - 1);
      }
    }
  }

  /**
   * Normalising (dimension, specification) entries in order on top of `acc`: success exactly when
   * every entry passes; the dimensions are then those of `acc` and of the entries, each entry's
   * dimension keeps the result of the last entry naming it, and other dimensions of `acc` are
   * untouched. Otherwise the error is that of the first failing entry.
   */
  lemma NormalizeDictFrom(entries: seq<(nat, GroupSpec)>, shape: seq<nat>, acc: Groups)
    ensures var r := NormalizeEntries(entries, shape, acc);
      && (r.Success? <==> forall i :: 0 <= i < |entries| ==> EntryPasses(shape, entries[i]))
      && (r.Success? ==> forall d :: d in r.value <==> d in acc || exists i :: 0 <= i < |entries| && entries[i].0 == d)
      && (r.Success? ==> forall i :: 0 <= i < |entries| && LastForKey(entries, i) ==>
            && entries[i].0 in r.value
            && r.value[entries[i].0] == Normalized(entries[i].1, shape[entries[i].0]).value)
      && (r.Success? ==> forall d :: d in acc && (forall i :: 0 <= i < |entries| ==> entries[i].0 != d) ==>
            d in r.value && r.value[d] == acc[d])
      && (r.Failure? ==> exists i :: FirstEntryFailure(entries, shape, i, r.error))
  {
    var r := NormalizeEntries(entries, shape, acc);
    DictOutcome(entries, shape, acc);
    if r.Success? {
      forall d: nat ensures d in r.value <==> d in acc || exists i :: 0 <= i < |entries| && entries[i].0 == d {
        DictKeys(entries, shape, acc, d);
      }
      forall d: nat | d in acc && (forall i :: 0 <= i < |entries| ==> entries[i].0 != d)
        ensures d in r.value && r.value[d] == acc[d]
      {
        DictKeepsUnnamed(entries, shape, acc, d);
      }
      forall i | 0 <= i < |entries| && LastForKey(entries, i)
        ensures entries[i].0 in r.value
        ensures r.value[entries[i].0] == Normalized(entries[i].1, shape[entries[i].0]).value
      {
        DictLastWins(entries, shape, acc, i);
      }
    }
  }

  /**
   * The dict form of `groups`: `array2df` gets groups exactly when every key is a dimension of the
   * array and every specification passes `_check_dict`; the dimensions are then exactly the keys, each
   * mapping as `_check_dict(groups[dim], shape[dim])` does. Otherwise the first failing entry's error
   * is raised. (A Python dict names each key once, so every entry is the last for its key.)
   */
  lemma NormalizeDict(entries: seq<(nat, GroupSpec)>, shape: seq<nat>)
    ensures var r := NormalizeGroups(Some(GroupDict(entries)), shape);
      && (r.Success? <==> forall i :: 0 <= i < |entries| ==> EntryPasses(shape, entries[i]))
      && (r.Success? ==> forall d :: d in r.value <==> exists i :: 0 <= i < |entries| && entries[i].0 == d)
      && (r.Success? ==> forall i :: 0 <= i < |entries| && LastForKey(entries, i) ==>
            && entries[i].0 in r.value
            && r.value[entries[i].0] == Normalized(entries[i].1, shape[entries[i].0]).value)
      && (r.Failure? ==> exists i :: FirstEntryFailure(entries, shape, i, r.error))
  {
    NormalizeDictFrom(entries, shape, map[]);
  }

  predicate NamesComplete(names: map<nat, string>, n: nat)
  {
    forall d :: 0 <= d < n ==> d in names
  }

  /** Every position of every dimension has a label. */
  predicate LabelsComplete(g: Groups, shape: seq<nat>)
  {
    forall d :: 0 <= d < |shape| ==> d in g && forall i :: 0 <= i < shape[d] ==> i in g[d]
  }

  /**
   * Row `idx` holds the element at the `idx`-th row-major address and, for each dimension `d`,
   * the label of the address's coordinate `d`.
   */
  predicate RowAt(row: Row, idx: nat, arr: seq<int>, shape: seq<nat>, g: Groups)
    requires idx < Prod(shape) == |arr|
  {
    var adr := Address(idx, shape);
    && row.value == arr[idx]
    && |row.labels| == |shape|
    && forall d :: 0 <= d < |shape| ==> d in g && adr[d] in g[d] && row.labels[d] == g[d][adr[d]]
  }

  /** `t` is the melt of `arr`: value column first, one column per dimension, one row per element. */
  predicate Melted(t: Table, arr: seq<int>, shape: seq<nat>, names: map<nat, string>, g: Groups, valueName: string)
    requires |arr| == Prod(shape)
  {
    && |t.columns| == |shape| + 1
    && t.columns[0] == valueName
    && (forall d :: 0 <= d < |shape| ==> d in names && t.columns[d + 1] == names[d])
    && |t.rows| == Prod(shape)
    && forall idx :: 0 <= idx < |t.rows| ==> RowAt(t.rows[idx], idx, arr, shape, g)
  }

  /** The melt of an array is unique: two tables that both melt it are the same table. */
  lemma MeltedUnique(t: Table, t': Table, arr: seq<int>, shape: seq<nat>, names: map<nat, string>, g: Groups, valueName: string)
    requires |arr| == Prod(shape)
    requires Melted(t, arr, shape, names, g, valueName) && Melted(t', arr, shape, names, g, valueName)
    ensures t == t'
  {
    forall i | 0 <= i < |t.columns| ensures t.columns[i] == t'.columns[i] {
      if i > 0 {
        assert t.columns[(i - 1) + 1] == names[i - 1] == t'.columns[(i - 1) + 1];
      }
    }
    forall idx | 0 <= idx < |t.rows| ensures t.rows[idx] == t'.rows[idx] {
      var row, row' := t.rows[idx], t'.rows[idx];
      assert RowAt(row, idx, arr, shape, g) && RowAt(row', idx, arr, shape, g);
      assert row.labels == row'.labels;
    }
  }

  /** The comprehension of `array2df` that runs `_check_dict` on every given group specification. */
  method NormalizeLoop(entries: seq<(nat, GroupSpec)>, shape: seq<nat>) returns (r: Result<Groups, Error>)
    ensures r == NormalizeEntries(entries, shape, map[])
  {
    var g: Groups := map[];
    for i := 0 to |entries|
      invariant NormalizeEntries(entries, shape, map[]) == NormalizeEntries(entries[i..], shape, g)
    {
      var (dim, spec) := entries[i];
      assert entries[i..][0] == (dim, spec) && entries[i..][1..] == entries[i + 1..];
      if dim >= |shape| {
        return Failure(LookupError);
      }
      var checked := CheckDict(spec, shape[dim]);
      if checked.Failure? {
        return Failure(checked.error);
      }
      g := g[dim := checked.value];
    }
    r := Success(g);
  }

  /** An array with at least one element has no empty dimension. */
  lemma {:induction false} ProdPositive(shape: seq<nat>)
    requires Prod(shape) > 0
    ensures forall d :: 0 <= d < |shape| ==> shape[d] > 0
    decreases |shape|
  {
    if shape != [] {
      assert shape[0] != 0 && Prod(shape[1..]) != 0;
      ProdPositive(shape[1..]);
      assert forall d :: 1 <= d < |shape| ==> shape[d] == shape[1..][d - 1];
    }
  }

  /** Every coordinate of the `k`-th row-major address has a label. */
  predicate AddressLabelled(g: Groups, shape: seq<nat>, k: nat)
    requires k < Prod(shape)
  {
    var adr := Address(k, shape);
    forall d :: 0 <= d < |shape| ==> d in g && adr[d] in g[d]
  }

  /** Position `i` of dimension `d` is a coordinate of some address, so it has a label. */
  lemma PositionLabelled(shape: seq<nat>, g: Groups, d: nat, i: nat)
    requires forall k :: 0 <= k < Prod(shape) ==> AddressLabelled(g, shape, k)
    requires Prod(shape) > 0 && d < |shape| && i < shape[d]
    ensures d in g && i in g[d]
  {
    ProdPositive(shape);
    var adr: seq<nat> := seq(|shape|, e requires 0 <= e < |shape| => if e == d then i else 0);
    assert InBounds(adr, shape);
    AddressFlatten(adr, shape);
    var k := Flatten(adr, shape);
    assert AddressLabelled(g, shape, k);
    assert Address(k, shape)[d] == i;
  }

  /** When every address of an array has its labels, every position of every dimension does. */
  lemma LookupsCoverAll(shape: seq<nat>, g: Groups)
    requires forall k :: 0 <= k < Prod(shape) ==> AddressLabelled(g, shape, k)
    ensures Prod(shape) > 0 ==> LabelsComplete(g, shape)
  {
    if Prod(shape) > 0 {
      ProdPositive(shape);
      forall d | 0 <= d < |shape| ensures d in g && forall i :: 0 <= i < shape[d] ==> i in g[d] {
        PositionLabelled(shape, g, d, 0);
        forall i | 0 <= i < shape[d] ensures i in g[d] {
          PositionLabelled(shape, g, d, i);
        }
      }
    }
  }

  /** The column names: the value name, then each dimension's name in order; `None` when a dimension has no name. */
  method ColumnNames(names: map<nat, string>, n: nat, valueName: string) returns (r: Option<seq<string>>)
    ensures r.Some? <==> NamesComplete(names, n)
    ensures r.Some? ==> |r.value| == n + 1 && r.value[0] == valueName
    ensures r.Some? ==> forall d :: 0 <= d < n ==> r.value[d + 1] == names[d]
  {
    var columns := [valueName];
    for d := 0 to n
      invariant |columns| == d + 1 && columns[0] == valueName
      invariant forall e :: 0 <= e < d ==> e in names && columns[e + 1] == names[e]
    {
      if d !in names {
        return None;
      }
      columns := columns + [names[d]];
    }
    r := Some(columns);
  }

  /** The inner loop of `array2df`: the label of each coordinate of `adr`; `None` for a missing one. */
  method RowLabels(adr: seq<nat>, g: Groups) returns (r: Option<seq<string>>)
    ensures r.Some? <==> forall d :: 0 <= d < |adr| ==> d in g && adr[d] in g[d]
    ensures r.Some? ==> |r.value| == |adr|
    ensures r.Some? ==> forall d :: 0 <= d < |adr| ==> r.value[d] == g[d][adr[d]]
  {
    var labels: seq<string> := [];
    for d := 0 to |adr|
      invariant |labels| == d
      invariant forall e :: 0 <= e < d ==> e in g && adr[e] in g[e] && labels[e] == g[e][adr[e]]
    {
      if d !in g || adr[d] !in g[d] {
        return None;
      }
      labels := labels + [g[d][adr[d]]];
    }
    r := Some(labels);
  }

  /** The outer loop of `array2df`: one row per address of `itertools.product`; `None` for a missing label. */
  method MeltRows(arr: seq<int>, shape: seq<nat>, g: Groups) returns (r: Option<seq<Row>>)
    requires |arr| == Prod(shape)
    ensures r.Some? <==> Prod(shape) > 0 ==> LabelsComplete(g, shape)
    ensures r.Some? ==> |r.value| == Prod(shape)
    ensures r.Some? ==> forall idx :: 0 <= idx < |r.value| ==> RowAt(r.value[idx], idx, arr, shape, g)
  {
    var addresses := Product(shape);
    ProductLength(shape);
    var rows: seq<Row> := [];
    for idx := 0 to |addresses|
      invariant |rows| == idx
      invariant forall k :: 0 <= k < idx ==> RowAt(rows[k], k, arr, shape, g)
    {
      var adr := addresses[idx];
      ProductIsRowMajor(shape, idx);
      FlattenAddress(idx, shape);
      var value := arr[Flatten(adr, shape)];
      var labels := RowLabels(adr, g);
      if labels.None? {
        var d :| 0 <= d < |adr| && !(d in g && adr[d] in g[d]);
        assert InBounds(adr, shape);
        return None;
      }
      rows := rows + [Row(value, labels.value)];
    }
    forall k | 0 <= k < Prod(shape) ensures AddressLabelled(g, shape, k) {
      assert RowAt(rows[k], k, arr, shape, g);
    }
    LookupsCoverAll(shape, g);
    r := Some(rows);
  }

  /** `array2df(arr, dim_names, groups, value_name)`. */
  method Array2Df(arr: seq<int>, shape: seq<nat>, dimNames: Option<map<nat, string>> := None,
                  groups: Option<GroupsArg> := None, valueName: string := "value") returns (r: Result<Table, Error>)
    requires |arr| == Prod(shape)
    ensures NormalizeGroups(groups, shape).Failure? ==> r == Failure(NormalizeGroups(groups, shape).error)
    ensures NormalizeGroups(groups, shape).Success? ==>
      var names := NamesOf(dimNames, |shape|);
      var g := NormalizeGroups(groups, shape).value;
      && (r.Success? <==> NamesComplete(names, |shape|) && (Prod(shape) > 0 ==> LabelsComplete(g, shape)))
      && (r.Failure? ==> r.error == LookupError)
      && (r.Success? ==> Melted(r.value, arr, shape, names, g, valueName))
  {
    var names := if dimNames.None? then DefaultNames(|shape|) else dimNames.value;
    var normalized: Result<Groups, Error>;
    match groups {
      case None => normalized := DefaultGroups(shape);
      case Some(GroupList(specs)) => normalized := NormalizeLoop(ListEntries(specs), shape);
      case Some(GroupDict(entries)) => normalized := NormalizeLoop(entries, shape);
    }
    if normalized.Failure? {
      return Failure(normalized.error);
    }
    var g := normalized.value;
    var columns := ColumnNames(names, |shape|, valueName);
    if columns.None? {
      return Failure(LookupError);
    }
    var rows := MeltRows(arr, shape, g);
    if rows.None? {
      return Failure(LookupError);
    }
    r := Success(Table(columns.value, rows.value));
  }

  /**
   * The defaults: without `groups`, dimension `d` labels position `i` with its letter followed by
   * `str(i)`, and fails only for a non-empty dimension beyond the eighth; without `dim_names`,
   * dimension `d` is named `dim_` and its letter, and only eight dimensions are named.
   */
  lemma DefaultGroupsAndNames(shape: seq<nat>)
    ensures DefaultGroups(shape).Success? <==> forall d :: |LETTERS| <= d < |shape| ==> shape[d] == 0
    ensures DefaultGroups(shape).Success? ==>
      var g := DefaultGroups(shape).value;
      && LabelsComplete(g, shape)
      && forall d, i :: 0 <= d < |shape| && 0 <= i < shape[d] ==> g[d][i] == [LETTERS[d]] + DecimalString(i)
    ensures NamesComplete(DefaultNames(|shape|), |shape|) <==> |shape| <= |LETTERS|
    ensures forall d :: 0 <= d < |shape| && d < |LETTERS| ==> DefaultNames(|shape|)[d] == "dim_" + [LETTERS[d]]
  {
    if |shape| > |LETTERS| {
      assert |LETTERS| !in DefaultNames(|shape|);
    }
  }

  /** Distinct positions of a dimension get distinct default labels. */
  lemma DefaultLabelsDistinct(d: nat, len: nat, i: nat, j: nat)
    requires d < |LETTERS| && i < len && j < len && i != j
    ensures DefaultLabels(d, len)[i] != DefaultLabels(d, len)[j]
  {
    ParseDecimalString(i);
    ParseDecimalString(j);
    var a, b := DefaultLabels(d, len)[i], DefaultLabels(d, len)[j];
    assert a[1..] == DecimalString(i) && b[1..] == DecimalString(j);
  }

  /** `{'A': [0, 2], 'B': [1, 3]}` for a dimension of length 4: positions 0 to 3 alternate "A", "B". */
  lemma ExampleLabelKeyed(spec: GroupSpec)
    requires spec == ByLabel([("A", [0, 2]), ("B", [1, 3])])
    ensures Normalized(spec, 4).Success?
    ensures var g := Normalized(spec, 4).value;
      g.Keys == {0, 1, 2, 3} && g[0] == "A" && g[1] == "B" && g[2] == "A" && g[3] == "B"
  {
    var e := Swap(spec.labelled);
    assert e == [([0, 2], "A"), ([1, 3], "B")];
    var a, b := e[0], e[1];
    assert Elems(a.0) == {0, 2} && Elems(b.0) == {1, 3};
    CheckedTwo(a, b, 4);
    assert [a, b] == e;
    var g := Assign(a.0, a.1) + Assign(b.0, b.1);
    assert g.Keys == {0, 1, 2, 3};
    assert g[0] == "A" && g[1] == "B" && g[2] == "A" && g[3] == "B";
  }

  /** `{(0, 2): 'abc', (1,): 'd'}` for a dimension of length 3: positions 0 to 2 are "abc", "d", "abc". */
  lemma ExampleTupleKeyed(spec: GroupSpec)
    requires spec == ByTuple([([0, 2], "abc"), ([1], "d")])
    ensures Normalized(spec, 3).Success?
    ensures var g := Normalized(spec, 3).value;
      g.Keys == {0, 1, 2} && g[0] == "abc" && g[1] == "d" && g[2] == "abc"
  {
    var e := spec.tupled;
    assert e == [([0, 2], "abc"), ([1], "d")];
    var a, b := e[0], e[1];
    assert Elems(a.0) == {0, 2} && Elems(b.0) == {1};
    CheckedTwo(a, b, 3);
    assert [a, b] == e;
    var g := Assign(a.0, a.1) + Assign(b.0, b.1);
    assert g.Keys == {0, 1, 2};
    assert g[0] == "abc" && g[1] == "d" && g[2] == "abc";
  }

  /** A list of two group specifications that both pass `_check_dict`. */
  lemma NormalizeTwo(s0: GroupSpec, s1: GroupSpec, shape: seq<nat>, g0: map<int, string>, g1: map<int, string>)
    requires |shape| == 2
    requires Normalized(s0, shape[0]) == Success(g0) && Normalized(s1, shape[1]) == Success(g1)
    ensures NormalizeGroups(Some(GroupList([s0, s1])), shape) == Success(map[0 := g0, 1 := g1])
  {
    var entries: seq<(nat, GroupSpec)> := ListEntries([s0, s1]);
    assert entries == [(0, s0), (1, s1)];
    assert NormalizeEntries(entries, shape, map[]) == NormalizeEntries(entries[1..], shape, map[0 := g0]);
    assert entries[1..] == [(1, s1)] && entries[1..][1..] == [];
    assert NormalizeEntries(entries[1..], shape, map[0 := g0]) == NormalizeEntries([], shape, map[0 := g0, 1 := g1]);
  }
}

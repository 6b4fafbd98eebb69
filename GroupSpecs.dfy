/**
 * `_check_dict(dct, dim_len)`: turn one dimension's group specification into a map from position
 * along that dimension to label, and check that it names `dim_len` distinct positions.
 */
module GroupSpecs {
  import opened Wrappers
  import opened Errors

  /**
   * The four forms `_check_dict` tells apart by inspecting its argument:
   * a dict whose keys are all strings (label -> positions), a dict whose keys are all tuples
   * (positions -> label), any other dict (taken to map position -> label already), and
   * something that is not a dict (a sequence of labels indexed by position).
   * Entries of a dict are listed in its iteration order.
   */
  datatype GroupSpec =
    | ByLabel(labelled: seq<(string, seq<int>)>)
    | ByTuple(tupled: seq<(seq<int>, string)>)
    | ByPosition(positions: map<int, string>)
    | Labels(labels: seq<string>)

  /** Label -> positions entries as positions -> label entries, in the same order. */
  function Swap(labelled: seq<(string, seq<int>)>): (entries: seq<(seq<int>, string)>)
  {
    seq(|labelled|, i requires 0 <= i < |labelled| => (labelled[i].1, labelled[i].0))
  }

  /** Every position that some entry lists. */
  function Listed(entries: seq<(seq<int>, string)>): (s: set<int>)
    decreases |entries|
  {
    if entries == [] then {}
    else Listed(entries[..|entries| - 1]) + Elems(entries[|entries| - 1].0)
  }

  /** The positions of a sequence, as a set. */
  function Elems(positions: seq<int>): set<int>
  {
    set p | p in positions
  }

  /** Each of `positions` maps to the label `name`. */
  function Assign(positions: seq<int>, name: string): map<int, string>
  {
    map p | p in positions :: name
  }

  /** Entry `j` is the last entry of `entries` that lists position `p`. */
  predicate LastListing(entries: seq<(seq<int>, string)>, p: int, j: int)
  {
    && 0 <= j < |entries|
    && p in entries[j].0
    && forall j' :: j < j' < |entries| ==> p !in entries[j'].0
  }

  /**
   * The map built by assigning, entry after entry, each listed position its entry's label;
   * a position listed twice keeps the label of its last listing.
   */
  function Spread(entries: seq<(seq<int>, string)>): (m: map<int, string>)
    ensures m.Keys == Listed(entries)
    decreases |entries|
  {
    if entries == [] then map[]
    else Spread(entries[..|entries| - 1]) + Assign(entries[|entries| - 1].0, entries[|entries| - 1].1)
  }

  /** Every position of `Spread(entries)` carries the label of the last entry listing it. */
  lemma {:induction false} SpreadLastListing(entries: seq<(seq<int>, string)>, p: int)
    requires p in Spread(entries)
    ensures exists j :: LastListing(entries, p, j) && Spread(entries)[p] == entries[j].1
    decreases |entries|
  {
    var n := |entries| - 1;
    var init := entries[..n];
    if p in entries[n].0 {
      assert LastListing(entries, p, n);
    } else {
      SpreadLastListing(init, p);
      var j :| LastListing(init, p, j) && Spread(init)[p] == init[j].1;
      assert LastListing(entries, p, j);
    }
  }

  /** Spreading two entries: the second one's positions override the first one's. */
  lemma SpreadTwo(a: (seq<int>, string), b: (seq<int>, string))
    ensures Spread([a, b]) == Assign(a.0, a.1) + Assign(b.0, b.1)
    ensures Listed([a, b]) == Elems(a.0) + Elems(b.0)
  {
    assert [a, b][..1] == [a] && [a][..0] == [];
  }

  /** Two entries listing disjoint positions, `n` in all, pass the check and label each position once. */
  lemma CheckedTwo(a: (seq<int>, string), b: (seq<int>, string), n: nat)
    requires Elems(a.0) !! Elems(b.0) && |Elems(a.0)| + |Elems(b.0)| == n
    ensures Checked([a, b], n) == Success(Assign(a.0, a.1) + Assign(b.0, b.1))
  {
    SpreadTwo(a, b);
  }

  /** The positions of a sequence of labels. */
  function Indexed(labels: seq<string>): (m: map<int, string>)
  {
    map i | 0 <= i < |labels| :: labels[i]
  }

  /** A sequence of `n` labels has exactly `n` positions. */
  lemma {:induction false} IndexedSize(labels: seq<string>)
    ensures |Indexed(labels)| == |labels|
    decreases |labels|
  {
    if labels != [] {
      var n := |labels| - 1;
      IndexedSize(labels[..n]);
      assert Indexed(labels).Keys == Indexed(labels[..n]).Keys + {n};
    }
  }

  /** The assertion of `_check_dict` on the dict forms: exactly `dimLen` distinct positions. */
  function Checked(entries: seq<(seq<int>, string)>, dimLen: nat): (r: Result<map<int, string>, Error>)
  {
    if |Listed(entries)| == dimLen then Success(Spread(entries)) else Failure(AssertionError)
  }

  /** What `_check_dict(dct, dim_len)` returns, or the `AssertionError` it raises. */
  function Normalized(spec: GroupSpec, dimLen: nat): (r: Result<map<int, string>, Error>)
  {
    match spec
    case ByLabel(labelled) => Checked(Swap(labelled), dimLen)
    case ByTuple(tupled) => Checked(tupled, dimLen)
    case ByPosition(m) =>
      // an empty dict has "all keys strings" and takes the checked branch
      if |m| == 0 && dimLen != 0 then Failure(AssertionError) else Success(m)
    case Labels(labels) => if |labels| == dimLen then Success(Indexed(labels)) else Failure(AssertionError)
  }

  /** The loops of `_check_dict` on a dict form: fill the new dict and the set of positions seen. */
  method SpreadEntries(entries: seq<(seq<int>, string)>) returns (newDct: map<int, string>, seen: set<int>)
    ensures newDct == Spread(entries) && seen == Listed(entries)
  {
    newDct, seen := map[], {};
    for i := 0 to |entries|
      invariant newDct == Spread(entries[..i]) && seen == Listed(entries[..i])
    {
      var (positions, name) := entries[i];
      for j := 0 to |positions|
        invariant newDct == Spread(entries[..i]) + Assign(positions[..j], name)
        invariant seen == Listed(entries[..i]) + Elems(positions[..j])
      {
        assert positions[..j + 1] == positions[..j] + [positions[j]];
        assert Assign(positions[..j + 1], name) == Assign(positions[..j], name)[positions[j] := name];
        newDct := newDct[positions[j] := name];
        seen := seen + {positions[j]};
      }
      assert entries[..i + 1][..i] == entries[..i];
      assert positions[..|positions|] == positions;
    }
    assert entries[..|entries|] == entries;
  }

  /** `_check_dict(dct, dim_len)`. */
  method CheckDict(spec: GroupSpec, dimLen: nat) returns (r: Result<map<int, string>, Error>)
    ensures r == Normalized(spec, dimLen)
  {
    match spec {
      case ByLabel(labelled) =>
        var newDct, valsSet := SpreadEntries(Swap(labelled));
        if |valsSet| != dimLen { return Failure(AssertionError); }
        r := Success(newDct);
      case ByTuple(tupled) =>
        var newDct, iSet := SpreadEntries(tupled);
        if |iSet| != dimLen { return Failure(AssertionError); }
        r := Success(newDct);
      case ByPosition(m) =>
        if |m| == 0 && dimLen != 0 { return Failure(AssertionError); }
        r := Success(m);
      case Labels(labels) =>
        if |labels| != dimLen { return Failure(AssertionError); }
        r := Success(Indexed(labels));
    }
  }

  /**
   * A dict form: the check passes exactly when `dimLen` distinct positions are listed; the result
   * maps exactly the listed positions, each to the label of an entry that lists it (the last one).
   */
  lemma NormalizedDict(entries: seq<(seq<int>, string)>, dimLen: nat)
    ensures Checked(entries, dimLen).Success? <==> |Listed(entries)| == dimLen
    ensures Checked(entries, dimLen).Failure? ==> Checked(entries, dimLen).error == AssertionError
    ensures Checked(entries, dimLen).Success? ==>
      var m := Checked(entries, dimLen).value;
      && (forall p :: p in m <==> exists j :: 0 <= j < |entries| && p in entries[j].0)
      && (forall p :: p in m ==> exists j :: LastListing(entries, p, j) && m[p] == entries[j].1)
  {
    if |Listed(entries)| == dimLen {
      var m := Spread(entries);
      forall p | p in m ensures exists j :: LastListing(entries, p, j) && m[p] == entries[j].1 {
        SpreadLastListing(entries, p);
      }
      forall p | exists j :: 0 <= j < |entries| && p in entries[j].0 ensures p in m {
        var j :| 0 <= j < |entries| && p in entries[j].0;
        ListedContains(entries, j, p);
      }
    }
  }

  /** A position listed by some entry is in `Listed`. */
  lemma {:induction false} ListedContains(entries: seq<(seq<int>, string)>, j: int, p: int)
    requires 0 <= j < |entries| && p in entries[j].0
    ensures p in Listed(entries)
    decreases |entries|
  {
    if j < |entries| - 1 {
      ListedContains(entries[..|entries| - 1], j, p);
    }
  }

  /** The label-keyed form lists the same positions under the same labels as its swapped entries. */
  lemma NormalizedByLabel(labelled: seq<(string, seq<int>)>, dimLen: nat)
    ensures Normalized(ByLabel(labelled), dimLen).Success? <==> |Listed(Swap(labelled))| == dimLen
    ensures Normalized(ByLabel(labelled), dimLen).Success? ==>
      var m := Normalized(ByLabel(labelled), dimLen).value;
      && (forall p :: p in m <==> exists j :: 0 <= j < |labelled| && p in labelled[j].1)
      && (forall p :: p in m ==> exists j :: 0 <= j < |labelled| && p in labelled[j].1 && m[p] == labelled[j].0)
  {
    var entries := Swap(labelled);
    NormalizedDict(entries, dimLen);
    if |Listed(entries)| == dimLen {
      var m := Spread(entries);
      forall p | p in m ensures exists j :: 0 <= j < |labelled| && p in labelled[j].1 && m[p] == labelled[j].0 {
        var j :| LastListing(entries, p, j) && m[p] == entries[j].1;
      }
      forall p | exists j :: 0 <= j < |labelled| && p in labelled[j].1 ensures p in m {
        var j :| 0 <= j < |labelled| && p in labelled[j].1;
        assert p in entries[j].0;
      }
    }
  }

  /**
   * The pass-through forms: another dict is returned unchanged without any check (unless it is
   * empty), a sequence of labels must have length `dimLen` and is looked up by position.
   */
  lemma NormalizedPassThrough(m: map<int, string>, labels: seq<string>, dimLen: nat)
    ensures |m| > 0 ==> Normalized(ByPosition(m), dimLen) == Success(m)
    ensures Normalized(Labels(labels), dimLen).Success? <==> |labels| == dimLen
    ensures Normalized(Labels(labels), dimLen).Success? ==>
      var r := Normalized(Labels(labels), dimLen).value;
      forall i :: 0 <= i < |labels| ==> i in r && r[i] == labels[i]
  {
  }

  /** `entries` lists exactly the positions of `m`, each under the label `m` gives it. */
  predicate Describes(entries: seq<(seq<int>, string)>, m: map<int, string>)
  {
    && (forall j, p :: 0 <= j < |entries| && p in entries[j].0 ==> p in m && m[p] == entries[j].1)
    && (forall p :: p in m ==> exists j :: 0 <= j < |entries| && p in entries[j].0)
  }

  /** Entries that describe `m` spread back into `m`. */
  lemma SpreadDescribes(entries: seq<(seq<int>, string)>, m: map<int, string>)
    requires Describes(entries, m)
    ensures Spread(entries) == m
  {
    var s := Spread(entries);
    forall p ensures p in s <==> p in m {
      if p in m {
        var j :| 0 <= j < |entries| && p in entries[j].0;
        ListedContains(entries, j, p);
      }
      if p in s {
        SpreadLastListing(entries, p);
      }
    }
    forall p | p in s ensures s[p] == m[p] {
      SpreadLastListing(entries, p);
    }
  }

  /**
   * The label-keyed, tuple-keyed, position-keyed and sequence forms of one and the same
   * position -> label assignment all normalise to that assignment.
   */
  lemma EncodingsAgree(labels: seq<string>, labelled: seq<(string, seq<int>)>, tupled: seq<(seq<int>, string)>)
    requires Describes(Swap(labelled), Indexed(labels))
    requires Describes(tupled, Indexed(labels))
    ensures Normalized(Labels(labels), |labels|) == Success(Indexed(labels))
    ensures Normalized(ByLabel(labelled), |labels|) == Success(Indexed(labels))
    ensures Normalized(ByTuple(tupled), |labels|) == Success(Indexed(labels))
    ensures Normalized(ByPosition(Indexed(labels)), |labels|) == Success(Indexed(labels))
  {
    IndexedSize(labels);
    SpreadDescribes(Swap(labelled), Indexed(labels));
    SpreadDescribes(tupled, Indexed(labels));
  }
}

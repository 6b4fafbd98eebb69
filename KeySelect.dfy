/**
 * `subselect_keys(key, mapping, sep)`: select the entries of a string-keyed mapping whose
 * separator-delimited parts include every part of every requested key.
 * The separator is modelled as a single character (the default is `'/'`).
 */
module KeySelect {
  import opened Wrappers
  import opened Errors

  /** Python's `s.split(sep)` for a one-character separator: empty parts are kept. */
  function Split(s: string, sep: char): (parts: seq<string>)
    ensures |parts| >= 1
    ensures forall i :: 0 <= i < |parts| ==> sep !in parts[i]
    decreases |s|
  {
    if s == [] then [""]
    else
      var rest := Split(s[1..], sep);
      if s[0] == sep then [""] + rest
      else [[s[0]] + rest[0]] + rest[1..]
  }

  /** Python's `sep.join(parts)`. */
  function Join(parts: seq<string>, sep: char): (s: string)
    requires |parts| >= 1
    decreases |parts|
  {
    if |parts| == 1 then parts[0] else parts[0] + [sep] + Join(parts[1..], sep)
  }

  /** Joining the parts of a split gives back the string. */
  lemma {:induction false} JoinSplit(s: string, sep: char)
    ensures Join(Split(s, sep), sep) == s
    decreases |s|
  {
    if s != [] {
      var rest := Split(s[1..], sep);
      JoinSplit(s[1..], sep);
      if s[0] != sep && |rest| > 1 {
        assert Split(s, sep)[1..] == rest[1..];
        assert Join(Split(s, sep), sep) == [s[0]] + rest[0] + [sep] + Join(rest[1..], sep);
      }
    }
  }

  /** A part without the separator, then the separator: the split starts with that part. */
  lemma {:induction false} SplitAfterPart(p: string, t: string, sep: char)
    requires sep !in p
    ensures Split(p + [sep] + t, sep) == [p] + Split(t, sep)
    ensures Split(p, sep) == [p]
    decreases |p|
  {
    if p != [] {
      SplitAfterPart(p[1..], t, sep);
      assert (p + [sep] + t)[1..] == p[1..] + [sep] + t;
      assert [p[0]] + p[1..] == p;
    } else {
      assert p + [sep] + t == [sep] + t;
    }
  }

  /** Splitting a join of separator-free parts gives back the parts. */
  lemma {:induction false} SplitJoin(parts: seq<string>, sep: char)
    requires |parts| >= 1
    requires forall i :: 0 <= i < |parts| ==> sep !in parts[i]
    ensures Split(Join(parts, sep), sep) == parts
    decreases |parts|
  {
    SplitAfterPart(parts[0], [], sep);
    if |parts| > 1 {
      SplitJoin(parts[1..], sep);
      SplitAfterPart(parts[0], Join(parts[1..], sep), sep);
    }
  }

  /** `set(s.split(sep))`. */
  function Parts(s: string, sep: char): set<string>
  {
    set p | p in Split(s, sep)
  }

  /** Every requested key's parts are among the parts of `k`. */
  predicate Covers(k: string, requested: seq<string>, sep: char)
  {
    forall q :: q in requested ==> Parts(q, sep) <= Parts(k, sep)
  }

  /** The entries whose key covers every requested key. */
  function Filtered<V>(mapping: map<string, V>, requested: seq<string>, sep: char): (m: map<string, V>)
  {
    map k | k in mapping && Covers(k, requested, sep) :: mapping[k]
  }

  /** `key` is one string or a list of strings; a string is wrapped into a one-element list. */
  datatype KeyArg = One(key: string) | Many(keys: seq<string>)

  function Requested(key: KeyArg): seq<string>
  {
    match key
    case One(k) => [k]
    case Many(ks) => ks
  }

  /**
   * `subselect_keys` as written: it splits on `'/'` whatever `sep` is, and its
   * "no event matches" check tests `len(key) == 0`, which cannot hold on that path.
   */
  function SubselectKeysAsWritten<V>(key: KeyArg, mapping: map<string, V>, sep: char): (r: Result<map<string, V>, Error>)
    ensures r == Failure(ValueError) <==> forall k :: k in mapping ==> sep !in k
    ensures r.Success? ==> forall k :: k in r.value ==> k in mapping && r.value[k] == mapping[k]
  {
    var requested := Requested(key);
    if !exists k :: k in mapping && sep in k then Failure(ValueError)
    else if forall q :: q in requested ==> q in mapping then Success(mapping)
    else
      var kept := Filtered(mapping, requested, '/');
      if |requested| == 0 then Failure(KeyError) else Success(kept)
  }

  /** As written, the `KeyError` for "no event matches all criteria" is never raised. */
  lemma AsWrittenNeverRaisesNoMatch<V>(key: KeyArg, mapping: map<string, V>, sep: char)
    ensures SubselectKeysAsWritten(key, mapping, sep) != Failure(KeyError)
  {
  }

  /** As written, a request that matches nothing returns an empty mapping instead of raising. */
  lemma AsWrittenReturnsEmpty()
    ensures SubselectKeysAsWritten(One("x"), map["a/b" := 1], '/') == Success(map[])
    ensures Filtered(map["a/b" := 1], ["x"], '/') == map[]
  {
    SplitAfterPart("x", [], '/');
    assert "a/b"[1] == '/' && "a/b" in map["a/b" := 1];
    assert "x" !in map["a/b" := 1];
    assert Split("a/b", '/') == ["a", "b"] by {
      SplitAfterPart("a", "b", '/');
      SplitAfterPart("b", [], '/');
      assert "a/b" == "a" + ['/'] + "b";
    }
    assert !Covers("a/b", ["x"], '/') by {
      assert "x" in Parts("x", '/');
      assert "x" !in Parts("a/b", '/');
    }
  }

  /** As written, once some key holds `sep` and some requested key is missing, keys are filtered on `'/'`. */
  lemma AsWrittenFiltersOnSlash<V>(key: KeyArg, mapping: map<string, V>, sep: char, k: string, q: string)
    requires k in mapping && sep in k
    requires q in Requested(key) && q !in mapping
    ensures SubselectKeysAsWritten(key, mapping, sep) == Success(Filtered(mapping, Requested(key), '/'))
  {
  }

  /**
   * As written, a separator other than `'/'` decides whether to subselect, but the keys are
   * then split on `'/'`: `"a.b"` no longer covers `"a"` and is dropped.
   */
  lemma AsWrittenIgnoresSeparator()
    ensures SubselectKeysAsWritten(One("a"), map["a.b" := 1], '.') == Success(map[])
    ensures Filtered(map["a.b" := 1], ["a"], '.') == map["a.b" := 1]
  {
    var m := map["a.b" := 1];
    assert "a.b"[1] == '.' && "a.b" in m;
    assert "a" !in m;
    AsWrittenFiltersOnSlash(One("a"), m, '.', "a.b", "a");
    assert !Covers("a.b", ["a"], '/') by {
      SplitAfterPart("a", [], '/');
      SplitAfterPart("a.b", [], '/');
      assert "a" in Parts("a", '/');
      assert Parts("a.b", '/') == {"a.b"};
    }
    assert Filtered(m, ["a"], '/').Keys == {};
    assert Covers("a.b", ["a"], '.') by {
      SplitAfterPart("a", [], '.');
      SplitAfterPart("a", "b", '.');
      assert "a.b" == "a" + ['.'] + "b";
      assert Parts("a", '.') == {"a"};
      assert "a" in Parts("a.b", '.');
    }
    assert Filtered(m, ["a"], '.').Keys == {"a.b"};
  }

  /**
   * `subselect_keys` as intended: the parts are split on `sep`, and a subselection that keeps
   * nothing raises `KeyError`. The caller's mapping is a value and is never changed.
   */
  method SubselectKeys<V>(key: KeyArg, mapping: map<string, V>, sep: char) returns (r: Result<map<string, V>, Error>)
    ensures r == Failure(ValueError) <==> forall k :: k in mapping ==> sep !in k
    ensures r.Failure? ==> r.error in {ValueError, KeyError}
    ensures (exists k :: k in mapping && sep in k) && (forall q :: q in Requested(key) ==> q in mapping)
            ==> r == Success(mapping)
    ensures (exists k :: k in mapping && sep in k) && (exists q :: q in Requested(key) && q !in mapping) ==>
      && (r == Failure(KeyError) <==> forall k :: k in mapping ==> !Covers(k, Requested(key), sep))
      && (r.Success? ==> forall k :: k in r.value <==> k in mapping && Covers(k, Requested(key), sep))
      && (r.Success? ==> forall k :: k in r.value ==> r.value[k] == mapping[k])
  {
    var requested := Requested(key);
    var selected := mapping;
    if !exists k :: k in selected && sep in k {
      return Failure(ValueError);
    }
    if exists q :: q in requested && q !in selected {
      var todo := selected.Keys;
      while todo != {}
        invariant todo <= mapping.Keys
        invariant forall k :: k in selected <==> k in mapping && (k in todo || Covers(k, requested, sep))
        invariant forall k :: k in selected ==> selected[k] == mapping[k]
        decreases todo
      {
        var k :| k in todo;
        if !Covers(k, requested, sep) {
          selected := selected - {k};
        }
        todo := todo - {k};
      }
      if selected.Keys == {} {
        return Failure(KeyError);
      }
    }
    return Success(selected);
  }
}

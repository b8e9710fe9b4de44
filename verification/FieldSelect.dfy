/** Picking fields out of a list by their names, which are compared in any case. */
module FieldSelect {
  import opened Bytes
  import opened FieldSection

  /** True when `name` is one of `names`. */
  predicate Listed(name: Bytes, names: seq<Bytes>) {
    exists i | 0 <= i < |names| :: EqIgnoreCase(names[i], name)
  }

  /** The values of the fields called `name`, in order: `get_header`. */
  function Named(fs: seq<Field>, name: Bytes): seq<Bytes> {
    if fs == [] then []
    else
      var most, last := Named(fs[..|fs| - 1], name), fs[|fs| - 1];
      if EqIgnoreCase(name, last.name) then most + [last.value] else most
  }

  /** The fields called none of `names`, in order. */
  function Without(fs: seq<Field>, names: seq<Bytes>): seq<Field> {
    if fs == [] then []
    else
      var most, last := Without(fs[..|fs| - 1], names), fs[|fs| - 1];
      if Listed(last.name, names) then most else most + [last]
  }

  /** `retain`, for the predicates that go by a list of names. */
  method Retain(fs: seq<Field>, names: seq<Bytes>) returns (kept: seq<Field>)
    ensures kept == Without(fs, names)
  {
    kept := [];
    for i := 0 to |fs|
      invariant kept == Without(fs[..i], names)
    {
      assert fs[..i + 1][..i] == fs[..i];
      if !Listed(fs[i].name, names) {
        kept := kept + [fs[i]];
      }
    }
    assert fs[..|fs|] == fs;
  }

  lemma {:induction false} NamedConcat(fs: seq<Field>, gs: seq<Field>, name: Bytes)
    ensures Named(fs + gs, name) == Named(fs, name) + Named(gs, name)
  {
    hide EqIgnoreCase;
    if gs == [] {
      assert fs + gs == fs;
    } else {
      assert (fs + gs)[..|fs + gs| - 1] == fs + gs[..|gs| - 1];
      NamedConcat(fs, gs[..|gs| - 1], name);
    }
  }

  lemma OneNamed(f: Field, name: Bytes)
    ensures Named([f], name) == if EqIgnoreCase(name, f.name) then [f.value] else []
  {
    assert [f][..0] == [];
  }

  /** Fields are kept or dropped one by one, each for its own name, and what is kept stays in
      order. */
  lemma {:induction false} WithoutConcat(fs: seq<Field>, gs: seq<Field>, names: seq<Bytes>)
    ensures Without(fs + gs, names) == Without(fs, names) + Without(gs, names)
    ensures |fs| == 1 ==> Without(fs, names) == if Listed(fs[0].name, names) then [] else fs
  {
    hide Listed;
    assert |fs| == 1 ==> fs[..0] == [];
    if gs == [] {
      assert fs + gs == fs;
    } else {
      assert (fs + gs)[..|fs + gs| - 1] == fs + gs[..|gs| - 1];
      WithoutConcat(fs, gs[..|gs| - 1], names);
    }
  }

  /** `fs` is what is left of `gs` when some fields are taken out. */
  predicate IsSubsequence(fs: seq<Field>, gs: seq<Field>) {
    || fs == []
    || (gs != [] && fs[|fs| - 1] == gs[|gs| - 1] && IsSubsequence(fs[..|fs| - 1], gs[..|gs| - 1]))
    || (gs != [] && IsSubsequence(fs, gs[..|gs| - 1]))
  }

  lemma {:induction false} WithoutInOrder(fs: seq<Field>, names: seq<Bytes>)
    ensures IsSubsequence(Without(fs, names), fs)
  {
    hide Listed;
    if fs != [] {
      var most := fs[..|fs| - 1];
      WithoutInOrder(most, names);
      var kept := Without(most, names);
      assert (kept + [fs[|fs| - 1]])[..|kept|] == kept;
    }
  }

  lemma SameNameListed(name: Bytes, other: Bytes, names: seq<Bytes>)
    requires EqIgnoreCase(name, other)
    ensures Listed(name, names) <==> Listed(other, names)
  {
    if Listed(name, names) {
      var i :| 0 <= i < |names| && EqIgnoreCase(names[i], name);
      assert EqIgnoreCase(names[i], other);
    }
    if Listed(other, names) {
      var i :| 0 <= i < |names| && EqIgnoreCase(names[i], other);
      assert EqIgnoreCase(names[i], name);
    }
  }

  /** Dropping names takes every value of theirs, and leaves the values of every other name. */
  lemma {:induction false} NamedWithout(fs: seq<Field>, names: seq<Bytes>, name: Bytes)
    ensures Named(Without(fs, names), name) == if Listed(name, names) then [] else Named(fs, name)
  {
    hide EqIgnoreCase, Listed;
    if fs != [] {
      var most, last := fs[..|fs| - 1], fs[|fs| - 1];
      NamedWithout(most, names, name);
      var kept := Without(most, names);
      assert (kept + [last])[..|kept|] == kept;
      if EqIgnoreCase(name, last.name) {
        SameNameListed(name, last.name, names);
      }
    }
  }

  /** Dropping some names and then others is dropping all of them. */
  lemma {:induction false} WithoutTwice(fs: seq<Field>, names: seq<Bytes>, others: seq<Bytes>)
    ensures Without(Without(fs, names), others) == Without(fs, names + others)
  {
    hide Listed;
    if fs != [] {
      var most, last := fs[..|fs| - 1], fs[|fs| - 1];
      WithoutTwice(most, names, others);
      ListedEither(last.name, names, others);
      var kept := Without(most, names);
      assert (kept + [last])[..|kept|] == kept;
    }
  }

  lemma ListedEither(name: Bytes, names: seq<Bytes>, others: seq<Bytes>)
    ensures Listed(name, names + others) <==> Listed(name, names) || Listed(name, others)
  {
    hide EqIgnoreCase;
    var all := names + others;
    if Listed(name, names) {
      var i :| 0 <= i < |names| && EqIgnoreCase(names[i], name);
      assert all[i] == names[i];
    }
    if Listed(name, others) {
      var i :| 0 <= i < |others| && EqIgnoreCase(others[i], name);
      assert all[|names| + i] == others[i];
    }
  }

  /** Only the set of dropped names matters. */
  lemma {:induction false} WithoutSameNames(fs: seq<Field>, names: seq<Bytes>, others: seq<Bytes>)
    requires forall name :: name in names <==> name in others
    ensures Without(fs, names) == Without(fs, others)
  {
    hide EqIgnoreCase;
    if fs != [] {
      WithoutSameNames(fs[..|fs| - 1], names, others);
      assert forall i | 0 <= i < |names| :: names[i] in others;
      assert forall i | 0 <= i < |others| :: others[i] in names;
    }
  }

  /** So the order does not matter, and dropping names again changes nothing. */
  lemma WithoutCommutes(fs: seq<Field>, names: seq<Bytes>, others: seq<Bytes>)
    ensures Without(Without(fs, names), others) == Without(Without(fs, others), names)
    ensures Without(Without(fs, names), names) == Without(fs, names)
  {
    hide Without;
    WithoutTwice(fs, names, others);
    WithoutTwice(fs, others, names);
    WithoutTwice(fs, names, names);
    WithoutSameNames(fs, names + others, others + names);
    WithoutSameNames(fs, names + names, names);
  }

  lemma {:induction false} WithoutNothing(fs: seq<Field>)
    ensures Without(fs, []) == fs
  {
    if fs != [] {
      WithoutNothing(fs[..|fs| - 1]);
      assert fs[..|fs| - 1] + [fs[|fs| - 1]] == fs;
    }
  }

  lemma {:induction false} WithoutWellFormed(fs: seq<Field>, names: seq<Bytes>)
    requires AllWellFormed(fs)
    ensures AllWellFormed(Without(fs, names)) && |Without(fs, names)| <= |fs|
  {
    hide WellFormed, Listed;
    if fs != [] {
      WithoutWellFormed(fs[..|fs| - 1], names);
    }
  }
}

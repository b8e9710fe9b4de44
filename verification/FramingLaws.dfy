/** What the framing decision depends on: which fields there are, not their order or folding. */
module FramingLaws {
  import opened Bytes
  import opened Results
  import opened FieldSection
  import opened FieldSelect
  import opened Lists
  import opened Headers

  /** A length is decided exactly when there is a content-length, everything it lists denotes that
      one 64-bit number, and there is no transfer-encoding. */
  lemma LengthDecided(fs: seq<Field>, n: u64)
    ensures FramingOf(fs) == Some(Length(n)) <==>
      LengthElements(fs) != [] && AllDenote(LengthElements(fs), n) && Named(fs, TRANSFER_ENCODING) == []
  {
    hide LengthElements, Named, ParseU64, SoleChunked;
    var es := LengthElements(fs);
    if es != [] && AllDenote(es, n) {
      assert ParseU64(es[0]) == Some(n);
    }
  }

  lemma {:induction false} NothingListed(vs: seq<Bytes>)
    ensures AllElements(vs) == [] <==> vs == []
  {
    hide Elements;
  }

  /** Chunked is decided exactly when there is one transfer-encoding, it names the chunked coding alone,
      and there is no content-length. */
  lemma ChunkedDecided(fs: seq<Field>)
    ensures FramingOf(fs) == Some(Chunked) <==>
      && Named(fs, CONTENT_LENGTH) == [] && |Named(fs, TRANSFER_ENCODING)| == 1
      && SoleChunked(Named(fs, TRANSFER_ENCODING)[0])
  {
    hide AllElements, Named, ParseU64, SoleChunked;
    NothingListed(Named(fs, CONTENT_LENGTH));
  }

  /** And no framing exactly when there is neither field. */
  lemma NoFramingDecided(fs: seq<Field>)
    ensures FramingOf(fs) == Some(NoFraming) <==>
      Named(fs, CONTENT_LENGTH) == [] && Named(fs, TRANSFER_ENCODING) == []
  {
    hide AllElements, Named, ParseU64, SoleChunked;
    NothingListed(Named(fs, CONTENT_LENGTH));
  }

  /** The chunked coding alone: one element of the list is it, and all others are empty. */
  lemma SoleChunkedMeans(v: Bytes)
    ensures SoleChunked(v) <==>
      exists i | 0 <= i < |Elements(v)| :: EqIgnoreCase(CHUNKED, Elements(v)[i]) && OnlyElement(Elements(v), i)
  {
    hide Elements, EqIgnoreCase;
    var es := Elements(v);
    if SoleChunked(v) {
      var i := SoleNonEmpty(es);
    }
    if i :| 0 <= i < |es| && EqIgnoreCase(CHUNKED, es[i]) && OnlyElement(es, i) {
      ChunkedIsNotEmpty(es[i]);
      OnlyNonEmpty(es, i);
    }
  }

  /** Every element but the one at `i` is empty. */
  predicate OnlyElement(es: seq<Bytes>, i: nat) {
    forall j | 0 <= j < |es| && j != i :: es[j] == []
  }

  lemma ChunkedIsNotEmpty(e: Bytes)
    requires EqIgnoreCase(CHUNKED, e)
    ensures e != []
  {
  }

  lemma {:induction false} SoleNonEmpty(es: seq<Bytes>) returns (i: nat)
    requires |NonEmpty(es)| == 1
    ensures i < |es| && es[i] == NonEmpty(es)[0] && OnlyElement(es, i)
  {
    var most, last := es[..|es| - 1], es[|es| - 1];
    if last == [] {
      i := SoleNonEmpty(most);
      assert forall j | 0 <= j < |most| :: es[j] == most[j];
    } else {
      i := |es| - 1;
      NoneNonEmpty(most);
      assert forall j | 0 <= j < |most| :: es[j] == most[j];
    }
  }

  lemma {:induction false} NoneNonEmpty(es: seq<Bytes>)
    ensures NonEmpty(es) == [] <==> forall j | 0 <= j < |es| :: es[j] == []
  {
    if es != [] {
      var most := es[..|es| - 1];
      NoneNonEmpty(most);
      assert forall j | 0 <= j < |most| :: es[j] == most[j];
    }
  }

  lemma {:induction false} OnlyNonEmpty(es: seq<Bytes>, i: nat)
    requires i < |es| && es[i] != [] && OnlyElement(es, i)
    ensures NonEmpty(es) == [es[i]]
  {
    var most := es[..|es| - 1];
    assert forall j | 0 <= j < |most| :: es[j] == most[j];
    if i == |es| - 1 {
      NoneNonEmpty(most);
    } else {
      OnlyNonEmpty(most, i);
    }
  }

  lemma DropOne(most: seq<Field>, before: seq<Field>, after: seq<Field>, f: Field)
    requires multiset(most + [f]) == multiset(before + [f] + after)
    ensures multiset(most) == multiset(before + after)
  {
    assert multiset(most + [f]) == multiset(most) + multiset{f};
    assert multiset(before + [f] + after) == multiset(before + after) + multiset{f};
    assert multiset(most) == multiset(most + [f]) - multiset{f};
    assert multiset(before + after) == multiset(before + [f] + after) - multiset{f};
  }

  /** Permuting fields permutes the values found under a name. */
  lemma {:induction false} NamedPermuted(fs: seq<Field>, gs: seq<Field>, name: Bytes)
    requires multiset(fs) == multiset(gs)
    ensures multiset(Named(fs, name)) == multiset(Named(gs, name))
  {
    hide EqIgnoreCase;
    if fs == [] {
      assert |multiset(gs)| == 0 && gs == [];
    } else {
      var most, f := fs[..|fs| - 1], fs[|fs| - 1];
      assert fs == most + [f];
      assert f in multiset(gs);
      var k :| 0 <= k < |gs| && gs[k] == f;
      var before, after := gs[..k], gs[k + 1..];
      assert gs == before + [f] + after;
      DropOne(most, before, after, f);
      NamedPermuted(most, before + after, name);
      NamedConcat(most, [f], name);
      NamedConcat(before + [f], after, name);
      NamedConcat(before, [f], name);
      NamedConcat(before, after, name);
    }
  }

  lemma {:induction false} ElementListed(vs: seq<Bytes>, e: Bytes)
    ensures e in AllElements(vs) <==> exists i :: 0 <= i < |vs| && e in Elements(vs[i])
  {
    hide Elements;
    if vs != [] {
      var most := vs[..|vs| - 1];
      ElementListed(most, e);
      assert forall i | 0 <= i < |most| :: most[i] == vs[i];
    }
  }

  lemma ElementsPermuted(vs: seq<Bytes>, ws: seq<Bytes>, e: Bytes)
    requires multiset(vs) == multiset(ws) && e in AllElements(vs)
    ensures e in AllElements(ws)
  {
    hide Elements, AllElements;
    ElementListed(vs, e);
    ElementListed(ws, e);
    var i :| 0 <= i < |vs| && e in Elements(vs[i]);
    assert vs[i] in multiset(ws);
  }

  lemma AgreeingSubset(es: seq<Bytes>, ds: seq<Bytes>)
    requires LengthsAgree(es) && forall d :: d in ds ==> d in es
    ensures LengthsAgree(ds)
    ensures ds != [] ==> es != [] && ParseU64(es[0]) == ParseU64(ds[0])
  {
    hide ParseU64;
    if ds != [] {
      assert ds[0] in es;
      forall i | 0 <= i < |ds|
        ensures ParseU64(ds[i]) == ParseU64(es[0])
      {
        assert ds[i] in es;
      }
    }
  }

  /** The order of the fields never changes whether framing succeeds, nor what it decides. */
  lemma FramingPermuted(fs: seq<Field>, gs: seq<Field>)
    requires multiset(fs) == multiset(gs)
    ensures FramingOf(fs) == FramingOf(gs)
  {
    hide Named, AllElements, LengthsAgree, SoleChunked, ParseU64;
    NamedPermuted(fs, gs, CONTENT_LENGTH);
    NamedPermuted(fs, gs, TRANSFER_ENCODING);
    forall e
      ensures e in LengthElements(fs) <==> e in LengthElements(gs)
    {
      var vs, ws := Named(fs, CONTENT_LENGTH), Named(gs, CONTENT_LENGTH);
      if e in AllElements(vs) { ElementsPermuted(vs, ws, e); }
      if e in AllElements(ws) { ElementsPermuted(ws, vs, e); }
    }
    var es, ds := LengthElements(fs), LengthElements(gs);
    if LengthsAgree(es) { AgreeingSubset(es, ds); }
    if LengthsAgree(ds) { AgreeingSubset(ds, es); }
    assert es != [] ==> es[0] in ds;
    assert ds != [] ==> ds[0] in es;
    var c, d := Named(fs, TRANSFER_ENCODING), Named(gs, TRANSFER_ENCODING);
    assert |c| == |multiset(c)| == |multiset(d)| == |d|;
    if |c| == 1 {
      assert c[0] in multiset(d);
    }
  }

  lemma {:induction false} AllElementsConcat(vs: seq<Bytes>, ws: seq<Bytes>)
    ensures AllElements(vs + ws) == AllElements(vs) + AllElements(ws)
  {
    hide Elements;
    if ws == [] {
      assert vs + ws == vs;
    } else {
      assert (vs + ws)[..|vs + ws| - 1] == vs + ws[..|ws| - 1];
      AllElementsConcat(vs, ws[..|ws| - 1]);
    }
  }

  /** One content-length line listing two values means the same as two lines, whatever the case of
      the names and wherever the lines stand. */
  lemma FramingFolded(before: seq<Field>, after: seq<Field>, name: Bytes, name1: Bytes, name2: Bytes,
                      v: Bytes, w: Bytes)
    requires EqIgnoreCase(CONTENT_LENGTH, name)
    requires EqIgnoreCase(CONTENT_LENGTH, name1) && EqIgnoreCase(CONTENT_LENGTH, name2)
    ensures FramingOf(before + [Field(name, v + [COMMA] + w)] + after)
         == FramingOf(before + [Field(name1, v), Field(name2, w)] + after)
  {
    hide LengthsAgree, SoleChunked, ParseU64;
    var folded, lines := [Field(name, v + [COMMA] + w)], [Field(name1, v), Field(name2, w)];
    Spliced(before, folded, after);
    Spliced(before, lines, after);
    FoldedLines(name, name1, name2, v, w);
  }

  lemma Spliced(before: seq<Field>, middle: seq<Field>, after: seq<Field>)
    ensures LengthElements(before + middle + after)
         == LengthElements(before) + LengthElements(middle) + LengthElements(after)
    ensures Named(before + middle + after, TRANSFER_ENCODING)
         == Named(before, TRANSFER_ENCODING) + Named(middle, TRANSFER_ENCODING) + Named(after, TRANSFER_ENCODING)
  {
    hide Named, AllElements;
    NamedConcat(before + middle, after, CONTENT_LENGTH);
    NamedConcat(before, middle, CONTENT_LENGTH);
    NamedConcat(before + middle, after, TRANSFER_ENCODING);
    NamedConcat(before, middle, TRANSFER_ENCODING);
    AllElementsConcat(Named(before + middle, CONTENT_LENGTH), Named(after, CONTENT_LENGTH));
    AllElementsConcat(Named(before, CONTENT_LENGTH), Named(middle, CONTENT_LENGTH));
  }

  lemma FoldedLines(name: Bytes, name1: Bytes, name2: Bytes, v: Bytes, w: Bytes)
    requires EqIgnoreCase(CONTENT_LENGTH, name)
    requires EqIgnoreCase(CONTENT_LENGTH, name1) && EqIgnoreCase(CONTENT_LENGTH, name2)
    ensures var folded, lines := [Field(name, v + [COMMA] + w)], [Field(name1, v), Field(name2, w)];
      LengthElements(folded) == LengthElements(lines)
      && Named(folded, TRANSFER_ENCODING) == Named(lines, TRANSFER_ENCODING)
  {
    hide EqIgnoreCase, Elements, LengthElements, Named;
    NamesDiffer(name);
    NamesDiffer(name1);
    NamesDiffer(name2);
    NothingNamed();
    ScanStep([], Field(name, v + [COMMA] + w));
    ScanStep([], Field(name1, v));
    ScanStep([Field(name1, v)], Field(name2, w));
    assert [] + [Field(name, v + [COMMA] + w)] == [Field(name, v + [COMMA] + w)];
    assert [] + [Field(name1, v)] == [Field(name1, v)];
    assert [Field(name1, v)] + [Field(name2, w)] == [Field(name1, v), Field(name2, w)];
    ElementsJoin(v, w);
  }
}

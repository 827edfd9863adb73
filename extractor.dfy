/**
 The selection loop of the streaming extractor: over the export's elements
 in document order, copy the namespace block through and write each page
 whose id is a target id, with normalised title and cleaned text.
 */
module Extractor {
  import opened Results
  import opened Text

  /** A child element of a page: missing, present without content, or with text. */
  datatype Field = Absent | NoText | Text(s: string)

  /** One entry of the namespace block: its attributes and its text. */
  datatype NamespaceEntry = NamespaceEntry(attributes: map<string, string>, text: Option<string>)

  /** The elements the pass reacts to, in document order. */
  datatype Element =
    | Namespaces(entries: seq<NamespaceEntry>)
    | Page(id: Field, title: Field, text: Field)

  /** What the pass writes. */
  datatype Output =
    | SiteInfo(entries: seq<NamespaceEntry>)
    | OutPage(title: string, id: string, text: seq<byte>)

  /** A page whose id is a target id. */
  predicate Selected(e: Element, ids: set<string>)
  {
    e.Page? && e.id.Text? && e.id.s in ids
  }

  /** An element that aborts the pass: a page without id, or a selected page lacking title or text content. */
  predicate Faulty(e: Element, ids: set<string>)
  {
    e.Page? && (e.id.Absent? || (Selected(e, ids) && !(e.title.Text? && e.text.Text?)))
  }

  predicate Processable(elems: seq<Element>, ids: set<string>)
  {
    forall k :: 0 <= k < |elems| ==> !Faulty(elems[k], ids)
  }

  /** The text cleaner: the markup rewriting stage, given as a parameter, then the ASCII-only encoding. */
  function CleanText(raw: string, rewrite: string -> string): seq<byte>
  {
    AsciiOnly(rewrite(raw))
  }

  /**
   The cleaned text is ASCII and no longer than the rewritten text, and a
   rewritten text that is ASCII already is kept byte for byte.
   */
  lemma CleanTextIsAscii(raw: string, rewrite: string -> string)
    ensures |CleanText(raw, rewrite)| <= |rewrite(raw)|
    ensures forall i :: 0 <= i < |CleanText(raw, rewrite)| ==> CleanText(raw, rewrite)[i] < 128
    ensures (forall i :: 0 <= i < |rewrite(raw)| ==> (rewrite(raw)[i] as int) < 128) ==>
              && |CleanText(raw, rewrite)| == |rewrite(raw)|
              && forall i :: 0 <= i < |rewrite(raw)| ==> CleanText(raw, rewrite)[i] as int == rewrite(raw)[i] as int
  {
    if forall i :: 0 <= i < |rewrite(raw)| ==> (rewrite(raw)[i] as int) < 128 {
      AsciiOnlyKeepsAscii(rewrite(raw));
    }
  }

  /** What one element contributes to the output. */
  function EmitOne(e: Element, ids: set<string>, rewrite: string -> string): seq<Output>
    requires !Faulty(e, ids)
  {
    match e
    case Namespaces(entries) => [SiteInfo(entries)]
    case Page(id, title, text) =>
      if Selected(e, ids) then [OutPage(Normalize(title.s), id.s, CleanText(text.s, rewrite))] else []
  }

  /** The output of a pass over elems, in document order. */
  function Emit(elems: seq<Element>, ids: set<string>, rewrite: string -> string): seq<Output>
    requires Processable(elems, ids)
  {
    if elems == [] then []
    else Emit(elems[..|elems| - 1], ids, rewrite) + EmitOne(elems[|elems| - 1], ids, rewrite)
  }

  /** Number of pages in an output. */
  function PageCount(out: seq<Output>): nat
  {
    if out == [] then 0
    else PageCount(out[..|out| - 1]) + (if out[|out| - 1].OutPage? then 1 else 0)
  }

  /** Number of selected pages among elems, duplicates included. */
  function SelectedCount(elems: seq<Element>, ids: set<string>): nat
  {
    if elems == [] then 0
    else SelectedCount(elems[..|elems| - 1], ids) + (if Selected(elems[|elems| - 1], ids) then 1 else 0)
  }

  /** The effect of one processable element on the output. */
  lemma EmitStep(pre: seq<Element>, e: Element, ids: set<string>, rewrite: string -> string)
    requires Processable(pre, ids) && !Faulty(e, ids)
    ensures Processable(pre + [e], ids)
    ensures Emit(pre + [e], ids, rewrite) == Emit(pre, ids, rewrite) + EmitOne(e, ids, rewrite)
  {
    var s := pre + [e];
    assert forall k :: 0 <= k < |pre| ==> s[k] == pre[k];
    assert s[..|s| - 1] == pre;
  }

  /** Appending one output item adds one to the page count iff it is a page. */
  lemma PageCountStep(out: seq<Output>, x: Output)
    ensures PageCount(out + [x]) == PageCount(out) + (if x.OutPage? then 1 else 0)
  {
    assert (out + [x])[..|out|] == out;
  }

  /** The state of the selection loop after the first i elements. */
  predicate SelectedSoFar(elems: seq<Element>, i: nat, ids: set<string>, rewrite: string -> string,
                          out: seq<Output>, count: nat)
  {
    i <= |elems| && Processable(elems[..i], ids) && out == Emit(elems[..i], ids, rewrite) && count == PageCount(out)
  }

  /** One more processable element: the output gains what it contributes, and one page when it is selected. */
  lemma SelectStep(elems: seq<Element>, i: nat, ids: set<string>, rewrite: string -> string,
                   out0: seq<Output>, count0: nat, out: seq<Output>, count: nat)
    requires i < |elems| && SelectedSoFar(elems, i, ids, rewrite, out0, count0) && !Faulty(elems[i], ids)
    requires out == out0 + EmitOne(elems[i], ids, rewrite)
    requires count == count0 + (if Selected(elems[i], ids) then 1 else 0)
    ensures SelectedSoFar(elems, i + 1, ids, rewrite, out, count)
  {
    var pre, e := elems[..i], elems[i];
    assert elems[..i + 1] == pre + [e];
    EmitStep(pre, e, ids, rewrite);
    if Selected(e, ids) {
      var page := OutPage(Normalize(e.title.s), e.id.s, CleanText(e.text.s, rewrite));
      assert EmitOne(e, ids, rewrite) == [page];
      PageCountStep(out0, page);
    } else if e.Namespaces? {
      assert EmitOne(e, ids, rewrite) == [SiteInfo(e.entries)];
      PageCountStep(out0, SiteInfo(e.entries));
    } else {
      assert EmitOne(e, ids, rewrite) == [];
      assert out == out0;
    }
  }

  /** A faulty element makes the whole sequence unprocessable. */
  lemma FaultStops(elems: seq<Element>, i: nat, ids: set<string>)
    requires i < |elems| && Faulty(elems[i], ids)
    ensures !Processable(elems, ids)
  {
  }

  /** The selection loop. The first faulty element stops the pass; what was
   written before it stays written.
   */
  method SelectPages(elems: seq<Element>, ids: set<string>, rewrite: string -> string)
    returns (out: seq<Output>, count: nat, fault: Option<nat>)
    ensures fault.None? <==> Processable(elems, ids)
    ensures fault.Some? ==>
              && fault.value < |elems|
              && Faulty(elems[fault.value], ids)
              && Processable(elems[..fault.value], ids)
              && out == Emit(elems[..fault.value], ids, rewrite)
    ensures fault.None? ==> out == Emit(elems, ids, rewrite)
    ensures count == PageCount(out)
  {
    out, count, fault := [], 0, None;
    var i := 0;
    while i < |elems|
      invariant SelectedSoFar(elems, i, ids, rewrite, out, count)
    {
      var e := elems[i];
      var written: seq<Output> := [];
      ghost var out0, count0 := out, count;
      if e.Page? {
        if e.id.Absent? {
          fault := Some(i);
          FaultStops(elems, i, ids);
          return;
        }
        if e.id.Text? && e.id.s in ids {
          if !e.title.Text? || !e.text.Text? {
            fault := Some(i);
            FaultStops(elems, i, ids);
            return;
          }
          written := [OutPage(Normalize(e.title.s), e.id.s, CleanText(e.text.s, rewrite))];
          count := count + 1;
        }
      } else {
        written := [SiteInfo(e.entries)];
      }
      out := out + written;
      SelectStep(elems, i, ids, rewrite, out0, count0, out, count);
      i := i + 1;
    }
    assert elems[..i] == elems;
  }

  /** The pass treats each element on its own: the output of a concatenation is the concatenation of the outputs. */
  lemma {:induction false} EmitConcat(a: seq<Element>, b: seq<Element>, ids: set<string>, rewrite: string -> string)
    requires Processable(a + b, ids)
    ensures Processable(a, ids) && Processable(b, ids)
    ensures Emit(a + b, ids, rewrite) == Emit(a, ids, rewrite) + Emit(b, ids, rewrite)
  {
    assert forall k :: 0 <= k < |a| ==> a[k] == (a + b)[k];
    assert forall k :: 0 <= k < |b| ==> b[k] == (a + b)[|a| + k];
    if b == [] {
      assert a + b == a;
    } else {
      var b', x := b[..|b| - 1], b[|b| - 1];
      assert b == b' + [x];
      assert a + b == (a + b') + [x];
      assert Processable(a + b', ids) by {
        assert forall k :: 0 <= k < |a + b'| ==> (a + b')[k] == (a + b)[k];
      }
      EmitConcat(a, b', ids, rewrite);
      assert !Faulty(x, ids) by {
        assert x == (a + b)[|a + b| - 1];
      }
      EmitStep(a + b', x, ids, rewrite);
      EmitStep(b', x, ids, rewrite);
      var one := EmitOne(x, ids, rewrite);
      assert Emit(a, ids, rewrite) + Emit(b', ids, rewrite) + one
          == Emit(a, ids, rewrite) + (Emit(b', ids, rewrite) + one);
    }
  }

  lemma {:induction false} PageCountConcat(a: seq<Output>, b: seq<Output>)
    ensures PageCount(a + b) == PageCount(a) + PageCount(b)
  {
    if b == [] {
      assert a + b == a;
    } else {
      assert (a + b)[..|a + b| - 1] == a + b[..|b| - 1];
      PageCountConcat(a, b[..|b| - 1]);
    }
  }

  /** One page is written per selected page, duplicate ids included. */
  lemma {:induction false} EmitPageCount(elems: seq<Element>, ids: set<string>, rewrite: string -> string)
    requires Processable(elems, ids)
    ensures PageCount(Emit(elems, ids, rewrite)) == SelectedCount(elems, ids)
  {
    if elems != [] {
      var init := elems[..|elems| - 1];
      assert Processable(init, ids) by {
        assert forall k :: 0 <= k < |init| ==> init[k] == elems[k];
      }
      EmitPageCount(init, ids, rewrite);
      var one := EmitOne(elems[|elems| - 1], ids, rewrite);
      PageCountConcat(Emit(init, ids, rewrite), one);
      assert PageCount(one) == (if Selected(elems[|elems| - 1], ids) then 1 else 0) by {
        if one != [] {
          assert one[..0] == [];
        }
      }
    }
  }

  /** Everything written comes from a single element. */
  lemma {:induction false} EmittedFrom(elems: seq<Element>, ids: set<string>, rewrite: string -> string, x: Output)
    requires Processable(elems, ids) && x in Emit(elems, ids, rewrite)
    ensures exists k :: 0 <= k < |elems| && x in EmitOne(elems[k], ids, rewrite)
  {
    var init, last := elems[..|elems| - 1], elems[|elems| - 1];
    assert forall k :: 0 <= k < |init| ==> init[k] == elems[k];
    var one := EmitOne(last, ids, rewrite);
    assert Emit(elems, ids, rewrite) == Emit(init, ids, rewrite) + one;
    if x in one {
      assert x in EmitOne(elems[|elems| - 1], ids, rewrite);
    } else {
      EmittedFrom(init, ids, rewrite, x);
      var k :| 0 <= k < |init| && x in EmitOne(init[k], ids, rewrite);
      assert x in EmitOne(elems[k], ids, rewrite);
    }
  }

  /** What a single element contributes is written. */
  lemma {:induction false} EmitOneEmitted(elems: seq<Element>, ids: set<string>, rewrite: string -> string,
                                          k: nat, x: Output)
    requires Processable(elems, ids) && k < |elems| && x in EmitOne(elems[k], ids, rewrite)
    ensures x in Emit(elems, ids, rewrite)
  {
    var init, last := elems[..|elems| - 1], elems[|elems| - 1];
    assert forall j :: 0 <= j < |init| ==> init[j] == elems[j];
    var one := EmitOne(last, ids, rewrite);
    assert Emit(elems, ids, rewrite) == Emit(init, ids, rewrite) + one;
    if k < |init| {
      assert init[k] == elems[k];
      EmitOneEmitted(init, ids, rewrite, k, x);
    }
  }

  /** Exactly the contributions of the single elements are written. */
  lemma EmittedExactly(elems: seq<Element>, ids: set<string>, rewrite: string -> string, x: Output)
    requires Processable(elems, ids)
    ensures x in Emit(elems, ids, rewrite) <==> exists k :: 0 <= k < |elems| && x in EmitOne(elems[k], ids, rewrite)
  {
    if x in Emit(elems, ids, rewrite) {
      EmittedFrom(elems, ids, rewrite, x);
    }
    if exists k :: 0 <= k < |elems| && x in EmitOne(elems[k], ids, rewrite) {
      var k :| 0 <= k < |elems| && x in EmitOne(elems[k], ids, rewrite);
      EmitOneEmitted(elems, ids, rewrite, k, x);
    }
  }

  /**
   A page is written iff its id is a target id: every written page carries a
   target id, and every selected page is written with normalised title,
   unchanged id and cleaned text. The namespace block is always copied.
   */
  lemma PagesWrittenIffSelected(elems: seq<Element>, ids: set<string>, rewrite: string -> string)
    requires Processable(elems, ids)
    ensures forall x :: x in Emit(elems, ids, rewrite) && x.OutPage? ==> x.id in ids
    ensures forall k :: 0 <= k < |elems| && Selected(elems[k], ids) ==>
              OutPage(Normalize(elems[k].title.s), elems[k].id.s, CleanText(elems[k].text.s, rewrite))
                in Emit(elems, ids, rewrite)
    ensures forall k :: 0 <= k < |elems| && elems[k].Namespaces? ==>
              SiteInfo(elems[k].entries) in Emit(elems, ids, rewrite)
  {
    forall x | x in Emit(elems, ids, rewrite) && x.OutPage? ensures x.id in ids {
      EmittedExactly(elems, ids, rewrite, x);
    }
    forall k | 0 <= k < |elems| && Selected(elems[k], ids)
      ensures OutPage(Normalize(elems[k].title.s), elems[k].id.s, CleanText(elems[k].text.s, rewrite))
                in Emit(elems, ids, rewrite)
    {
      EmittedExactly(elems, ids, rewrite,
                     OutPage(Normalize(elems[k].title.s), elems[k].id.s, CleanText(elems[k].text.s, rewrite)));
    }
    forall k | 0 <= k < |elems| && elems[k].Namespaces?
      ensures SiteInfo(elems[k].entries) in Emit(elems, ids, rewrite)
    {
      EmittedExactly(elems, ids, rewrite, SiteInfo(elems[k].entries));
    }
  }
}

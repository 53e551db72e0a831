/**
 The document rewriter `process_item` (ebook-translator.py:34-45). A parsed
 document is abstracted as an opaque skeleton (element nesting, attributes,
 every node that is not a text leaf) together with its text leaves in
 document order, each carrying its kind and the name of its parent element.
 The rewriter visits a snapshot of the leaves once each, in order, and
 replaces every qualifying leaf by a plain string holding the translation of
 its stripped text; the skeleton and every other leaf are left as they were.
 The visit does not look at the kind of a leaf, so a qualifying comment or
 CDATA section is replaced too, and comes back as plain text.
 */
module DocumentRewriter {
  import opened Text
  import opened Classifier
  import opened TranslationClient

  newtype byte = x: int | 0 <= x < 256

  /** The raw payload of an archive entry. */
  type Bytes = seq<byte>

  /** Some of the string node classes of the markup library: plain strings
      and the subclasses for comments and markup declarations. Each is found
      by the text search and passes the `NavigableString` test, being a
      subclass of it. Newer library versions have further subclasses (for
      the text of `<template>`, `<rt>` and `<rp>`, say), which behave the
      same way here. */
  datatype StringKind = NavigableString | Comment | CData | ProcessingInstruction | Declaration | Doctype

  /** A text leaf: its class, the name of its parent element and its
      string value. */
  datatype Leaf = Leaf(kind: StringKind, parent: string, text: string)

  /** A parsed document: the skeleton `S` is everything but the text leaves. */
  datatype Soup<S> = Soup(skeleton: S, leaves: seq<Leaf>)

  /** The markup library, left abstract: parsing a payload, rendering a
      tree back to text (`str(soup)`), and encoding text as UTF-8. */
  datatype Markup<!S> = Markup(parse: Bytes -> Soup<S>, render: Soup<S> -> string, encode: string -> Bytes)

  /** Parents whose text is never translated; `[document]` is the name of
      the root container, the parent of top-level text. */
  const ExcludedParents: seq<string> := ["style", "script", "head", "title", "meta", "[document]"]

  /** The condition of the loop body of `process_item`: a leaf is
      translated when its parent is not excluded, its stripped text is not
      empty and the classifier accepts the stripped text. */
  predicate Qualifies(leaf: Leaf) {
    && !Listed(leaf.parent, ExcludedParents)
    && Strip(leaf.text) != []
    && ShouldTranslate(Strip(leaf.text))
  }

  /** The leaves `selects` accepts, in document order. */
  function Selected(leaves: seq<Leaf>, selects: Leaf -> bool): (r: seq<Leaf>)
    ensures |r| <= |leaves|
  {
    if leaves == [] then []
    else
      var last := leaves[|leaves| - 1];
      Selected(leaves[..|leaves| - 1], selects) + if selects(last) then [last] else []
  }

  /** One visit per leaf, in document order, over a snapshot: a leaf that
      `selects` accepts is replaced by `replace` applied to it and to the
      ordinal `base` plus the number of accepted leaves before it; every
      other leaf is kept. */
  function Traverse(leaves: seq<Leaf>, selects: Leaf -> bool, replace: (Leaf, nat) -> Leaf, base: nat): (r: seq<Leaf>)
    ensures |r| == |leaves|
  {
    if leaves == [] then []
    else
      var init := leaves[..|leaves| - 1];
      var last := leaves[|leaves| - 1];
      Traverse(init, selects, replace, base)
        + [if selects(last) then replace(last, base + |Selected(init, selects)|) else last]
  }

  /** The replacement of a qualifying leaf made with the `call`-th translator
      call of the run: a plain string under the same parent, holding the
      translation of the stripped text. */
  function Translated(leaf: Leaf, service: Service, call: nat, src: string, tgt: string): (r: Leaf)
    ensures r.kind == NavigableString && r.parent == leaf.parent
    ensures IsStripped(r.text)
  {
    Leaf(NavigableString, leaf.parent, TranslateText(service, call, Strip(leaf.text), src, tgt))
  }

  /** `Translated` as the replacement rule of a traversal. */
  function Replacement(service: Service, src: string, tgt: string): (Leaf, nat) -> Leaf {
    (leaf: Leaf, call: nat) => Translated(leaf, service, call, src, tgt)
  }

  /** The texts sent to the translator, in the order they are sent: the
      stripped text of each qualifying leaf, in document order. */
  function Requests(leaves: seq<Leaf>): (r: seq<string>)
    ensures |r| == |Selected(leaves, Qualifies)|
  {
    var chosen := Selected(leaves, Qualifies);
    seq(|chosen|, k requires 0 <= k < |chosen| => Strip(chosen[k].text))
  }

  /** The leaves after the rewrite, when the run had already made `base`
      translator calls before this document. */
  function Rewrite(leaves: seq<Leaf>, service: Service, src: string, tgt: string, base: nat): (r: seq<Leaf>)
    ensures |r| == |leaves|
  {
    Traverse(leaves, Qualifies, Replacement(service, src, tgt), base)
  }

  /** The rewritten document and the requests it sent, from the payload of
      a document entry. */
  function RewriteDocument<S>(content: Bytes, markup: Markup<S>, service: Service, src: string, tgt: string, base: nat): (string, seq<string>) {
    var soup := markup.parse(content);
    (markup.render(Soup(soup.skeleton, Rewrite(soup.leaves, service, src, tgt, base))), Requests(soup.leaves))
  }

  /** The loop of `process_item` over the leaf snapshot: each leaf is
      visited once, in order, and only the visited slot is replaced.
      Returns the texts sent to the translator. */
  method RewriteLeaves(leaves: array<Leaf>, service: Service, src: string, tgt: string, base: nat)
    returns (requests: seq<string>)
    modifies leaves
    ensures leaves[..] == Rewrite(old(leaves[..]), service, src, tgt, base)
    ensures requests == Requests(old(leaves[..]))
  {
    ghost var snapshot := leaves[..];
    requests := [];
    var i := 0;
    while i < leaves.Length
      invariant 0 <= i <= leaves.Length == |snapshot|
      invariant leaves[..] == Rewrite(snapshot[..i], service, src, tgt, base) + snapshot[i..]
      invariant requests == Requests(snapshot[..i])
    {
      ghost var done := Rewrite(snapshot[..i], service, src, tgt, base);
      RewriteStep(snapshot, service, src, tgt, base, i);
      RequestsStep(snapshot, i);
      var leaf := leaves[i];
      assert leaf == snapshot[i];
      if Qualifies(leaf) {
        var original := Strip(leaf.text);
        var translated := TranslateText(service, base + |requests|, original, src, tgt);
        leaves[i] := Leaf(NavigableString, leaf.parent, translated);
        requests := requests + [original];
        ReplaceNext(done, snapshot[i..], leaves[i]);
      } else {
        ReplaceNext(done, snapshot[i..], leaf);
      }
      assert snapshot[i..][1..] == snapshot[i + 1..];
      i := i + 1;
    }
    assert snapshot[..i] == snapshot;
  }

  /** Replacing the first element after a prefix moves it into the prefix. */
  lemma ReplaceNext<T>(done: seq<T>, rest: seq<T>, x: T)
    requires rest != []
    ensures (done + rest)[|done| := x] == done + [x] + rest[1..]
  {
  }

  /** Visiting leaf `i` extends the rewrite of the leaves before it by that
      leaf's outcome alone. */
  lemma {:induction false} RewriteStep(leaves: seq<Leaf>, service: Service, src: string, tgt: string, base: nat, i: nat)
    requires i < |leaves|
    ensures Rewrite(leaves[..i + 1], service, src, tgt, base) == Rewrite(leaves[..i], service, src, tgt, base)
      + [if Qualifies(leaves[i]) then Translated(leaves[i], service, base + |Requests(leaves[..i])|, src, tgt) else leaves[i]]
  {
    assert leaves[..i + 1][..i] == leaves[..i];
  }

  /** Visiting leaf `i` extends the requests of the leaves before it by that
      leaf's stripped text when it qualifies, and by nothing otherwise. */
  lemma {:induction false} RequestsStep(leaves: seq<Leaf>, i: nat)
    requires i < |leaves|
    ensures Requests(leaves[..i + 1]) == Requests(leaves[..i]) + if Qualifies(leaves[i]) then [Strip(leaves[i].text)] else []
  {
    assert leaves[..i + 1][..i] == leaves[..i];
  }

  /** `process_item`: parse the payload, rewrite the leaves in place, render
      the tree. The skeleton is handed back unchanged. */
  method ProcessItem<S>(content: Bytes, markup: Markup<S>, service: Service, src: string, tgt: string, base: nat)
    returns (html: string, requests: seq<string>)
    ensures (html, requests) == RewriteDocument(content, markup, service, src, tgt, base)
  {
    var soup := markup.parse(content);
    var leaves := new Leaf[|soup.leaves|](k requires 0 <= k < |soup.leaves| => soup.leaves[k]);
    assert leaves[..] == soup.leaves;
    requests := RewriteLeaves(leaves, service, src, tgt, base);
    html := markup.render(Soup(soup.skeleton, leaves[..]));
  }

  /** Selection splits along a split of the document. */
  lemma {:induction false} SelectedAppend(a: seq<Leaf>, b: seq<Leaf>, selects: Leaf -> bool)
    ensures Selected(a + b, selects) == Selected(a, selects) + Selected(b, selects)
  {
    if b != [] {
      var b' := b[..|b| - 1];
      assert (a + b)[..|a + b| - 1] == a + b';
      assert (a + b)[|a + b| - 1] == b[|b| - 1];
      SelectedAppend(a, b', selects);
    } else {
      assert a + b == a;
    }
  }

  /** Everything selected is accepted by `selects`. */
  lemma {:induction false} SelectedAccepted(leaves: seq<Leaf>, selects: Leaf -> bool)
    ensures forall k :: 0 <= k < |Selected(leaves, selects)| ==> selects(Selected(leaves, selects)[k])
  {
    if leaves != [] {
      SelectedAccepted(leaves[..|leaves| - 1], selects);
    }
  }

  /** An accepted leaf `i` is selected, right after the ones accepted
      before it. */
  lemma {:induction false} SelectedOf(leaves: seq<Leaf>, selects: Leaf -> bool, i: nat)
    requires i < |leaves| && selects(leaves[i])
    ensures |Selected(leaves[..i], selects)| < |Selected(leaves, selects)|
    ensures Selected(leaves, selects)[|Selected(leaves[..i], selects)|] == leaves[i]
  {
    assert leaves == leaves[..i] + [leaves[i]] + leaves[i + 1..];
    SelectedAppend(leaves[..i] + [leaves[i]], leaves[i + 1..], selects);
    SelectedAppend(leaves[..i], [leaves[i]], selects);
    assert [leaves[i]][..0] == [];
  }

  /** Leaf `i` of a traversal: replaced with ordinal `base` plus the number
      of accepted leaves before it when accepted, kept otherwise. */
  lemma {:induction false} TraverseAt(leaves: seq<Leaf>, selects: Leaf -> bool, replace: (Leaf, nat) -> Leaf, base: nat, i: nat)
    requires i < |leaves|
    ensures Traverse(leaves, selects, replace, base)[i]
      == if selects(leaves[i]) then replace(leaves[i], base + |Selected(leaves[..i], selects)|) else leaves[i]
  {
    var init := leaves[..|leaves| - 1];
    if i < |leaves| - 1 {
      TraverseAt(init, selects, replace, base, i);
      assert init[..i] == leaves[..i];
    }
  }

  /** The traversal of a split document is the traversal of its parts, the
      second part's ordinals numbered after the first's. */
  lemma {:induction false} TraverseAppend(a: seq<Leaf>, b: seq<Leaf>, selects: Leaf -> bool, replace: (Leaf, nat) -> Leaf, base: nat)
    ensures Traverse(a + b, selects, replace, base)
      == Traverse(a, selects, replace, base) + Traverse(b, selects, replace, base + |Selected(a, selects)|)
  {
    if b != [] {
      var b' := b[..|b| - 1];
      assert (a + b)[..|a + b| - 1] == a + b';
      assert (a + b)[|a + b| - 1] == b[|b| - 1];
      TraverseAppend(a, b', selects, replace, base);
      SelectedAppend(a, b', selects);
    } else {
      assert a + b == a;
    }
  }

  /** Leaf `i` of the rewrite: a qualifying leaf is replaced by its
      translation made with the call whose ordinal is `base` plus the number
      of qualifying leaves before it; every other leaf is left as it was. */
  lemma {:induction false} RewriteAt(leaves: seq<Leaf>, service: Service, src: string, tgt: string, base: nat, i: nat)
    requires i < |leaves|
    ensures Rewrite(leaves, service, src, tgt, base)[i]
      == if Qualifies(leaves[i]) then Translated(leaves[i], service, base + |Requests(leaves[..i])|, src, tgt) else leaves[i]
  {
    TraverseAt(leaves, Qualifies, Replacement(service, src, tgt), base, i);
  }

  /** Every leaf keeps its parent; a qualifying leaf becomes a plain string,
      whatever its kind was, with no whitespace at either end, and every
      other leaf keeps its kind. */
  lemma {:induction false} RewriteKeepsShape(leaves: seq<Leaf>, service: Service, src: string, tgt: string, base: nat)
    ensures forall i :: 0 <= i < |leaves| ==> Rewrite(leaves, service, src, tgt, base)[i].parent == leaves[i].parent
    ensures forall i :: 0 <= i < |leaves| ==>
      Rewrite(leaves, service, src, tgt, base)[i].kind == if Qualifies(leaves[i]) then NavigableString else leaves[i].kind
    ensures forall i :: 0 <= i < |leaves| && Qualifies(leaves[i]) ==> IsStripped(Rewrite(leaves, service, src, tgt, base)[i].text)
  {
    forall i | 0 <= i < |leaves| {
      RewriteAt(leaves, service, src, tgt, base, i);
    }
  }

  /** The request made for qualifying leaf `i` carries that leaf's stripped
      text: the translator sees each qualifying leaf once, in order. */
  lemma {:induction false} RequestOf(leaves: seq<Leaf>, i: nat)
    requires i < |leaves| && Qualifies(leaves[i])
    ensures |Requests(leaves[..i])| < |Requests(leaves)|
    ensures Requests(leaves)[|Requests(leaves[..i])|] == Strip(leaves[i].text)
  {
    SelectedOf(leaves, Qualifies, i);
  }

  /** Every text sent to the translator is non-empty, stripped, and accepted
      by the classifier. */
  lemma {:induction false} RequestsAreProse(leaves: seq<Leaf>)
    ensures forall k :: 0 <= k < |Requests(leaves)| ==>
      Requests(leaves)[k] != [] && IsStripped(Requests(leaves)[k]) && ShouldTranslate(Requests(leaves)[k])
  {
    SelectedAccepted(leaves, Qualifies);
  }

  /** Requests split along a split of the document. */
  lemma {:induction false} RequestsAppend(a: seq<Leaf>, b: seq<Leaf>)
    ensures Requests(a + b) == Requests(a) + Requests(b)
  {
    SelectedAppend(a, b, Qualifies);
  }

  /** The rewrite of a split document is the rewrite of its parts, the
      second part's calls numbered after the first's. */
  lemma {:induction false} RewriteAppend(a: seq<Leaf>, b: seq<Leaf>, service: Service, src: string, tgt: string, base: nat)
    ensures Rewrite(a + b, service, src, tgt, base)
      == Rewrite(a, service, src, tgt, base) + Rewrite(b, service, src, tgt, base + |Requests(a)|)
  {
    TraverseAppend(a, b, Qualifies, Replacement(service, src, tgt), base);
  }

  /** What the rewrite yields when every call fails: each qualifying leaf
      becomes a plain string and loses its surrounding whitespace, every
      other leaf is kept. */
  function FailOpenLeaves(leaves: seq<Leaf>): (r: seq<Leaf>)
    ensures |r| == |leaves|
  {
    seq(|leaves|, i requires 0 <= i < |leaves| =>
      if Qualifies(leaves[i]) then Leaf(NavigableString, leaves[i].parent, Strip(leaves[i].text)) else leaves[i])
  }

  /** With a service that always fails, the rewrite only strips the
      qualifying leaves and makes them plain strings. */
  lemma {:induction false} RewriteWhenServiceFails(leaves: seq<Leaf>, service: Service, src: string, tgt: string, base: nat)
    requires AlwaysFails(service)
    ensures Rewrite(leaves, service, src, tgt, base) == FailOpenLeaves(leaves)
  {
    var r := Rewrite(leaves, service, src, tgt, base);
    forall i | 0 <= i < |leaves| ensures r[i] == FailOpenLeaves(leaves)[i] {
      RewriteAt(leaves, service, src, tgt, base, i);
      FailOpen(service, base + |Requests(leaves[..i])|, Strip(leaves[i].text), src, tgt);
    }
  }

  /** With a service that always fails, a document whose qualifying leaves
      are plain strings with no surrounding whitespace comes out unchanged. */
  lemma {:induction false} FailOpenKeepsDocument(leaves: seq<Leaf>, service: Service, src: string, tgt: string, base: nat)
    requires AlwaysFails(service)
    requires forall i :: 0 <= i < |leaves| && Qualifies(leaves[i]) ==>
      leaves[i].kind == NavigableString && IsStripped(leaves[i].text)
    ensures Rewrite(leaves, service, src, tgt, base) == leaves
  {
    RewriteWhenServiceFails(leaves, service, src, tgt, base);
    assert FailOpenLeaves(leaves) == leaves;
  }

  /** With a service that always fails, rewriting twice is rewriting once. */
  lemma {:induction false} FailOpenIdempotent(leaves: seq<Leaf>, service: Service, src: string, tgt: string, base: nat, base': nat)
    requires AlwaysFails(service)
    ensures var once := Rewrite(leaves, service, src, tgt, base);
      Rewrite(once, service, src, tgt, base') == once
  {
    var once := Rewrite(leaves, service, src, tgt, base);
    RewriteWhenServiceFails(leaves, service, src, tgt, base);
    forall i | 0 <= i < |once| && Qualifies(once[i]) ensures once[i].kind == NavigableString && IsStripped(once[i].text) {
      StripIdempotent(leaves[i].text);
    }
    FailOpenKeepsDocument(once, service, src, tgt, base');
  }

  /** "Hello " strips to "Hello". */
  lemma PaddedWordStrips()
    ensures Strip("Hello ") == "Hello"
  {
    assert TrimLeft("Hello ") == "Hello ";
    assert TrimRight("Hello ") == TrimRight("Hello");
  }

  /** "Hello " in a paragraph qualifies, whatever the kind of the leaf: its
      parent is not excluded and it strips to a word the classifier
      accepts. */
  lemma PaddedWordQualifies(kind: StringKind)
    ensures Qualifies(Leaf(kind, "p", "Hello "))
  {
    PaddedWordStrips();
    WordTranslated();
    ParagraphNotExcluded();
  }

  /** A single five-letter word is prose to the classifier. */
  lemma WordTranslated()
    ensures ShouldTranslate("Hello")
  {
    assert !IsDigits("Hello") by { assert !('0' <= "Hello"[0] <= '9'); }
    assert Upper("Hello")[0] == 'H';
    ShouldTranslateExactly("Hello");
  }

  /** Paragraph text is not under an excluded parent. */
  lemma ParagraphNotExcluded()
    ensures !Listed("p", ExcludedParents)
  {
    ListedIsMembership("p", ExcludedParents);
  }

  /** Replacement discards the whitespace around a qualifying leaf, even
      when the service fails: "Hello " loses the space that separated it
      from the next leaf. */
  lemma WhitespaceLostExample(service: Service, src: string, tgt: string)
    requires AlwaysFails(service)
    ensures Rewrite([Leaf(NavigableString, "p", "Hello ")], service, src, tgt, 0) == [Leaf(NavigableString, "p", "Hello")]
  {
    PaddedWordStrips();
    PaddedWordQualifies(NavigableString);
    RewriteAt([Leaf(NavigableString, "p", "Hello ")], service, src, tgt, 0, 0);
  }

  /** The visit does not look at the kind of a leaf: a comment in a
      paragraph whose text reads as prose is sent to the translator and replaced by a
      plain string, so the rendered document shows it as text. Even when the
      service fails, the comment is gone. */
  lemma CommentExposedExample(service: Service, src: string, tgt: string)
    requires AlwaysFails(service)
    ensures Rewrite([Leaf(Comment, "p", "Hello ")], service, src, tgt, 0) == [Leaf(NavigableString, "p", "Hello")]
  {
    PaddedWordStrips();
    PaddedWordQualifies(Comment);
    RewriteAt([Leaf(Comment, "p", "Hello ")], service, src, tgt, 0, 0);
  }
}

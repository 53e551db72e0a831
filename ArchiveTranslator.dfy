/**
 The archive driver `translate_epub` (ebook-translator.py:47-55): every
 document entry of the book is rewritten by `process_item` and re-encoded,
 every other entry is left alone, and the book is written under a new name
 derived from the input path. Reading and writing the archive are left out;
 the book is the sequence of its items, in the order the archive lists them.
 */
module ArchiveTranslator {
  import opened Text
  import opened Classifier
  import opened TranslationClient
  import opened DocumentRewriter

  /** The item types of the archive library, in its own numbering order;
      only `Document` entries are translated. */
  datatype ItemType = Unknown | Image | Style | Script | Navigation | Vector | Font | Video | Audio | Document | Cover | Smil

  /** The value of an archive item at one moment. */
  datatype Entry = Entry(name: string, kind: ItemType, content: Bytes)

  /** An archive item: its name and type are fixed, its content is replaced
      by `set_content`. */
  class EpubItem {
    const name: string
    const kind: ItemType
    var content: Bytes

    constructor (name: string, kind: ItemType, content: Bytes)
      ensures this.name == name && this.kind == kind && this.content == content
    {
      this.name := name;
      this.kind := kind;
      this.content := content;
    }

    /** The item's current value. */
    function Snapshot(): (e: Entry)
      reads this
      ensures e.name == name && e.kind == kind && e.content == content
    {
      Entry(name, kind, content)
    }
  }

  /** The current values of `items`, in order. */
  function Entries(items: seq<EpubItem>): (r: seq<Entry>)
    reads items
    ensures |r| == |items|
    ensures forall k :: 0 <= k < |items| ==> r[k] == items[k].Snapshot()
  {
    seq(|items|, k reads items requires 0 <= k < |items| => items[k].Snapshot())
  }

  /** One step of the archive loop: a document entry gets the UTF-8
      encoding of its rewritten markup, with the calls of its rewrite
      numbered from `base`; any other entry is kept. Also returns the texts
      sent to the translator. */
  function TranslateEntry<S>(entry: Entry, markup: Markup<S>, service: Service, src: string, tgt: string, base: nat): (r: (Entry, seq<string>))
    ensures r.0.name == entry.name && r.0.kind == entry.kind
    ensures entry.kind != Document ==> r == (entry, [])
  {
    if entry.kind == Document then
      var rewritten := RewriteDocument(entry.content, markup, service, src, tgt, base);
      (entry.(content := markup.encode(rewritten.0)), rewritten.1)
    else
      (entry, [])
  }

  /** A left-to-right pass over `entries` in which `step` maps an entry and
      the number of calls made so far to its new value and the texts it
      sends: the entries afterwards, and every text sent, in order. */
  function Sweep(entries: seq<Entry>, step: (Entry, nat) -> (Entry, seq<string>), base: nat): (r: (seq<Entry>, seq<string>))
    ensures |r.0| == |entries|
  {
    if entries == [] then ([], [])
    else
      var prior := Sweep(entries[..|entries| - 1], step, base);
      var last := step(entries[|entries| - 1], base + |prior.1|);
      (prior.0 + [last.0], prior.1 + last.1)
  }

  /** The loop body of `translate_epub` as a step of `Sweep`. */
  function EntryStep<S>(markup: Markup<S>, service: Service, src: string, tgt: string): (Entry, nat) -> (Entry, seq<string>) {
    (entry: Entry, call: nat) => TranslateEntry(entry, markup, service, src, tgt, call)
  }

  /** The archive loop over `entries`, the run having made `base` calls
      before. */
  function TranslateEntries<S>(entries: seq<Entry>, markup: Markup<S>, service: Service, src: string, tgt: string, base: nat): (r: (seq<Entry>, seq<string>))
    ensures |r.0| == |entries|
  {
    Sweep(entries, EntryStep(markup, service, src, tgt), base)
  }

  /** The name the translated book is written under: the input's base name
      behind a prefix naming the target language, in the working
      directory. */
  function OutputPath(tgt: string, filePath: string): string {
    "translated_" + tgt + "_" + Basename(filePath)
  }

  /** `translate_epub`: rewrite every document item in place, in archive
      order, and name the output. The items are distinct objects, as in the
      archive's manifest. Returns the output path and every text sent to
      the translator. */
  method TranslateEpub<S>(filePath: string, items: seq<EpubItem>, markup: Markup<S>, service: Service, src: string, tgt: string)
    returns (newPath: string, requests: seq<string>)
    requires forall i, j :: 0 <= i < j < |items| ==> items[i] != items[j]
    modifies items
    ensures Entries(items) == TranslateEntries(old(Entries(items)), markup, service, src, tgt, 0).0
    ensures requests == TranslateEntries(old(Entries(items)), markup, service, src, tgt, 0).1
    ensures newPath == OutputPath(tgt, filePath)
  {
    ghost var snapshot := Entries(items);
    ghost var step := StepOf(markup, service, src, tgt);
    SweepOfStep(snapshot, step, markup, service, src, tgt, 0);
    requests := TranslateItems(items, markup, service, src, tgt, step, snapshot);
    assert Entries(items) == Sweep(snapshot, step, 0).0;
    newPath := "translated_" + tgt + "_" + Basename(filePath);
  }

  /** The loop of `translate_epub` over the items, `step` being the loop
      body's effect on one item's value. */
  method TranslateItems<S>(items: seq<EpubItem>, markup: Markup<S>, service: Service, src: string, tgt: string,
                           ghost step: (Entry, nat) -> (Entry, seq<string>), ghost snapshot: seq<Entry>)
    returns (requests: seq<string>)
    requires forall i, j :: 0 <= i < j < |items| ==> items[i] != items[j]
    requires forall entry, call {:trigger TranslateEntry(entry, markup, service, src, tgt, call)} ::
      step(entry, call) == TranslateEntry(entry, markup, service, src, tgt, call)
    requires |snapshot| == |items|
    requires forall k :: 0 <= k < |items| ==> snapshot[k] == Entry(items[k].name, items[k].kind, items[k].content)
    modifies items
    ensures forall k :: 0 <= k < |items| ==> Sweep(snapshot, step, 0).0[k] == Entry(items[k].name, items[k].kind, items[k].content)
    ensures requests == Sweep(snapshot, step, 0).1
  {
    ghost var done: seq<Entry> := [];
    requests := [];
    var i := 0;
    while i < |items|
      invariant 0 <= i <= |items|
      invariant (done, requests) == Sweep(snapshot[..i], step, 0)
      invariant forall k :: 0 <= k < i ==> done[k] == Entry(items[k].name, items[k].kind, items[k].content)
      invariant forall k :: i <= k < |items| ==> snapshot[k] == Entry(items[k].name, items[k].kind, items[k].content)
    {
      SweepStep(snapshot, step, 0, i);
      var sent := TranslateItem(items[i], markup, service, src, tgt, |requests|, step);
      done := done + [Entry(items[i].name, items[i].kind, items[i].content)];
      requests := requests + sent;
      i := i + 1;
    }
    assert snapshot[..i] == snapshot;
  }

  /** The body of the loop of `translate_epub` for one item: a document
      item's content is replaced by the encoded result of `process_item`,
      with the calls numbered from `base`; any other item is left alone.
      Returns the texts sent to the translator. */
  method TranslateItem<S>(item: EpubItem, markup: Markup<S>, service: Service, src: string, tgt: string, base: nat,
                          ghost step: (Entry, nat) -> (Entry, seq<string>))
    returns (sent: seq<string>)
    requires forall entry, call {:trigger TranslateEntry(entry, markup, service, src, tgt, call)} ::
      step(entry, call) == TranslateEntry(entry, markup, service, src, tgt, call)
    modifies item
    ensures (Entry(item.name, item.kind, item.content), sent) == step(Entry(item.name, item.kind, old(item.content)), base)
  {
    ghost var expected := TranslateEntry(Entry(item.name, item.kind, item.content), markup, service, src, tgt, base);
    sent := [];
    if item.kind == Document {
      var html;
      html, sent := ProcessItem(item.content, markup, service, src, tgt, base);
      item.content := markup.encode(html);
    }
    assert (Entry(item.name, item.kind, item.content), sent) == expected;
  }

  /** The step of the archive loop as a function value, together with the
      one fact about it that the loop needs: applied where `TranslateEntry`
      is, it agrees with it. */
  lemma StepOf<S>(markup: Markup<S>, service: Service, src: string, tgt: string) returns (step: (Entry, nat) -> (Entry, seq<string>))
    ensures forall entry, call {:trigger TranslateEntry(entry, markup, service, src, tgt, call)} ::
      step(entry, call) == TranslateEntry(entry, markup, service, src, tgt, call)
  {
    step := EntryStep(markup, service, src, tgt);
  }

  /** A step that agrees with `TranslateEntry` everywhere gives the archive
      loop. */
  lemma SweepOfStep<S>(entries: seq<Entry>, step: (Entry, nat) -> (Entry, seq<string>), markup: Markup<S>, service: Service, src: string, tgt: string, base: nat)
    requires forall entry, call {:trigger TranslateEntry(entry, markup, service, src, tgt, call)} ::
      step(entry, call) == TranslateEntry(entry, markup, service, src, tgt, call)
    ensures Sweep(entries, step, base) == TranslateEntries(entries, markup, service, src, tgt, base)
  {
    var other := EntryStep(markup, service, src, tgt);
    forall entry, call ensures step(entry, call) == other(entry, call) {
      assert other(entry, call) == TranslateEntry(entry, markup, service, src, tgt, call);
    }
    SweepAgrees(entries, step, other, base);
  }

  /** Two steps that agree on every input make the same pass. */
  lemma {:induction false} SweepAgrees(entries: seq<Entry>, step: (Entry, nat) -> (Entry, seq<string>), other: (Entry, nat) -> (Entry, seq<string>), base: nat)
    requires forall entry, call :: step(entry, call) == other(entry, call)
    ensures Sweep(entries, step, base) == Sweep(entries, other, base)
  {
    if entries != [] {
      SweepAgrees(entries[..|entries| - 1], step, other, base);
    }
  }

  /** Visiting entry `i` extends the result for the entries before it by
      that entry's outcome alone. */
  lemma {:induction false} SweepStep(entries: seq<Entry>, step: (Entry, nat) -> (Entry, seq<string>), base: nat, i: nat)
    requires i < |entries|
    ensures var prior := Sweep(entries[..i], step, base);
      var last := step(entries[i], base + |prior.1|);
      Sweep(entries[..i + 1], step, base) == (prior.0 + [last.0], prior.1 + last.1)
  {
    assert entries[..i + 1][..i] == entries[..i];
  }

  /** Entry `i` after the pass is the outcome of its own step, with the
      count of calls made by the entries before it. */
  lemma {:induction false} SweepAt(entries: seq<Entry>, step: (Entry, nat) -> (Entry, seq<string>), base: nat, i: nat)
    requires i < |entries|
    ensures Sweep(entries, step, base).0[i] == step(entries[i], base + |Sweep(entries[..i], step, base).1|).0
  {
    var init := entries[..|entries| - 1];
    if i < |entries| - 1 {
      SweepAt(init, step, base, i);
      assert init[..i] == entries[..i];
    } else {
      assert entries[..i] == init;
    }
  }

  /** `step` leaves `entry` as it is and sends nothing, whatever the
      number of calls made before. */
  ghost predicate Keeps(step: (Entry, nat) -> (Entry, seq<string>), entry: Entry) {
    forall call :: step(entry, call) == (entry, [])
  }

  /** A pass whose every step keeps its entry and sends nothing changes
      nothing. */
  lemma {:induction false} SweepKeeps(entries: seq<Entry>, step: (Entry, nat) -> (Entry, seq<string>), base: nat)
    requires forall k :: 0 <= k < |entries| ==> Keeps(step, entries[k])
    ensures Sweep(entries, step, base) == (entries, [])
  {
    if entries != [] {
      var init := entries[..|entries| - 1];
      var last := entries[|entries| - 1];
      SweepKeeps(init, step, base);
      var prior := Sweep(init, step, base);
      assert init + [last] == entries;
      assert prior.1 + [] == [];
    }
  }

  /** The loop keeps the archive's layout: the same entries, in the same
      order, with the same names and types; an entry that is not a document
      is not touched. */
  lemma {:induction false} TranslateKeepsLayout<S>(entries: seq<Entry>, markup: Markup<S>, service: Service, src: string, tgt: string, base: nat)
    ensures var after := TranslateEntries(entries, markup, service, src, tgt, base).0;
      forall i :: 0 <= i < |entries| ==>
        && after[i].name == entries[i].name
        && after[i].kind == entries[i].kind
        && (entries[i].kind != Document ==> after[i] == entries[i])
  {
    forall i | 0 <= i < |entries| {
      SweepAt(entries, EntryStep(markup, service, src, tgt), base, i);
    }
  }

  /** A book without documents is left exactly as it was, and the
      translator is never called. */
  lemma NoDocumentsNoCalls<S>(entries: seq<Entry>, markup: Markup<S>, service: Service, src: string, tgt: string, base: nat)
    requires forall i :: 0 <= i < |entries| ==> entries[i].kind != Document
    ensures TranslateEntries(entries, markup, service, src, tgt, base) == (entries, [])
  {
    var step := EntryStep(markup, service, src, tgt);
    forall k | 0 <= k < |entries| ensures Keeps(step, entries[k]) {
      forall call ensures step(entries[k], call) == (entries[k], []) {
        assert step(entries[k], call) == TranslateEntry(entries[k], markup, service, src, tgt, call);
      }
    }
    SweepKeeps(entries, step, base);
  }

  /** What a document entry becomes when every call fails: its leaves are
      rewritten by `FailOpenLeaves`, whatever the call ordinals. */
  function FailOpenEntry<S>(entry: Entry, markup: Markup<S>): Entry {
    if entry.kind == Document then
      var soup := markup.parse(entry.content);
      entry.(content := markup.encode(markup.render(Soup(soup.skeleton, FailOpenLeaves(soup.leaves)))))
    else entry
  }

  /** A pass whose step yields an entry that depends on the entry alone
      maps the entries one by one. */
  lemma SweepMaps(entries: seq<Entry>, step: (Entry, nat) -> (Entry, seq<string>), base: nat, f: Entry -> Entry)
    requires forall entry, call :: step(entry, call).0 == f(entry)
    ensures forall i :: 0 <= i < |entries| ==> Sweep(entries, step, base).0[i] == f(entries[i])
  {
    forall i | 0 <= i < |entries| ensures Sweep(entries, step, base).0[i] == f(entries[i]) {
      SweepAt(entries, step, base, i);
    }
  }

  /** With a service that always fails, each entry of the book ends up as
      `FailOpenEntry` makes it. */
  lemma ArchiveWhenServiceFails<S>(entries: seq<Entry>, markup: Markup<S>, service: Service, src: string, tgt: string, base: nat)
    requires AlwaysFails(service)
    ensures var after := TranslateEntries(entries, markup, service, src, tgt, base).0;
      forall i :: 0 <= i < |entries| ==> after[i] == FailOpenEntry(entries[i], markup)
  {
    var step := EntryStep(markup, service, src, tgt);
    forall entry, call ensures step(entry, call).0 == FailOpenEntry(entry, markup) {
      if entry.kind == Document {
        RewriteWhenServiceFails(markup.parse(entry.content).leaves, service, src, tgt, call);
      }
    }
    SweepMaps(entries, step, base, (entry: Entry) => FailOpenEntry(entry, markup));
  }

  /** The texts `texts` gathers from each entry, in order. */
  function Gathered(entries: seq<Entry>, texts: Entry -> seq<string>): seq<string> {
    if entries == [] then [] else Gathered(entries[..|entries| - 1], texts) + texts(entries[|entries| - 1])
  }

  /** A pass whose step sends texts that depend on the entry alone sends
      them in entry order. */
  lemma {:induction false} SweepGathers(entries: seq<Entry>, step: (Entry, nat) -> (Entry, seq<string>), base: nat, texts: Entry -> seq<string>)
    requires forall entry, call :: step(entry, call).1 == texts(entry)
    ensures Sweep(entries, step, base).1 == Gathered(entries, texts)
  {
    if entries != [] {
      SweepGathers(entries[..|entries| - 1], step, base, texts);
    }
  }

  /** The texts one entry sends: the requests of a document, nothing for
      any other entry. */
  function EntryRequests<S>(entry: Entry, markup: Markup<S>): seq<string> {
    if entry.kind == Document then Requests(markup.parse(entry.content).leaves) else []
  }

  /** `EntryRequests` as a function of the entry. */
  function RequestsOf<S>(markup: Markup<S>): Entry -> seq<string> {
    (entry: Entry) => EntryRequests(entry, markup)
  }

  /** What the run sends to the translator is fixed by the book alone: the
      requests of its documents, in archive order, whatever the service
      replies and however many calls were made before. */
  lemma SentTextsFixedByBook<S>(entries: seq<Entry>, markup: Markup<S>, service: Service, src: string, tgt: string, base: nat)
    ensures TranslateEntries(entries, markup, service, src, tgt, base).1
      == Gathered(entries, RequestsOf(markup))
  {
    var step := EntryStep(markup, service, src, tgt);
    forall entry, call ensures step(entry, call).1 == EntryRequests(entry, markup) {
      assert step(entry, call) == TranslateEntry(entry, markup, service, src, tgt, call);
    }
    SweepGathers(entries, step, base, RequestsOf(markup));
  }

  /** Every text in `texts` is non-empty, stripped and accepted by the
      classifier. */
  ghost predicate AllProse(texts: seq<string>) {
    forall k :: 0 <= k < |texts| ==> texts[k] != [] && IsStripped(texts[k]) && ShouldTranslate(texts[k])
  }

  lemma AllProseAppend(a: seq<string>, b: seq<string>)
    requires AllProse(a) && AllProse(b)
    ensures AllProse(a + b)
  {
    forall k | 0 <= k < |a + b| ensures (a + b)[k] != [] && IsStripped((a + b)[k]) && ShouldTranslate((a + b)[k]) {
      if k < |a| {
        assert (a + b)[k] == a[k];
      } else {
        assert (a + b)[k] == b[k - |a|];
      }
    }
  }

  /** Every text the run sends is non-empty, stripped and accepted by the
      classifier. */
  lemma {:induction false} SentTextsAreProse<S>(entries: seq<Entry>, markup: Markup<S>)
    ensures AllProse(Gathered(entries, RequestsOf(markup)))
  {
    if entries != [] {
      var init := entries[..|entries| - 1];
      var last := entries[|entries| - 1];
      SentTextsAreProse(init, markup);
      var added := EntryRequests(last, markup);
      assert RequestsOf(markup)(last) == added;
      if last.kind == Document {
        RequestsAreProse(markup.parse(last.content).leaves);
      }
      assert AllProse(added);
      AllProseAppend(Gathered(init, RequestsOf(markup)), added);
    }
  }

  /** A path without `/` is its own base name. */
  lemma BasenameOfPlainName(p: string)
    requires NoSlash(p)
    ensures Basename(p) == p
  {
    BasenameAppend([], p);
    assert [] + p == p;
  }

  /** The output keeps the input's base name at its end. */
  lemma OutputPathEndsWithBasename(tgt: string, filePath: string)
    ensures var out := OutputPath(tgt, filePath);
      var b := Basename(filePath);
      |b| < |out| && out[|out| - |b|..] == b
  {
    var b := Basename(filePath);
    var out := OutputPath(tgt, filePath);
    assert out == ("translated_" + tgt + "_") + b;
  }

  /** With a target language free of `/`, the output is a plain file name:
      the book is written to the working directory, whatever directory the
      input came from. */
  lemma OutputPathIsPlainName(tgt: string, filePath: string)
    requires NoSlash(tgt)
    ensures Basename(OutputPath(tgt, filePath)) == OutputPath(tgt, filePath)
  {
    var out := OutputPath(tgt, filePath);
    assert NoSlash(out) by {
      var head := "translated_" + tgt + "_";
      assert out == head + Basename(filePath);
      forall k | 0 <= k < |out| ensures out[k] != '/' {
        if k < |head| {
          assert out[k] == head[k];
          if 11 <= k < 11 + |tgt| {
            assert head[k] == tgt[k - 11];
          }
        } else {
          assert out[k] == Basename(filePath)[k - |head|];
        }
      }
    }
    BasenameOfPlainName(out);
  }

  /** The output never overwrites the input: just before the base name the
      output has `_`, where the input has `/` or nothing. */
  lemma OutputPathDiffersFromInput(tgt: string, filePath: string)
    ensures OutputPath(tgt, filePath) != filePath
  {
    var b := Basename(filePath);
    var out := OutputPath(tgt, filePath);
    BasenameIsLastComponent(filePath);
    OutputPathEndsWithBasename(tgt, filePath);
    if |b| < |filePath| && |out| == |filePath| {
      assert out == ("translated_" + tgt + "_") + b;
      assert out[|out| - |b| - 1] == '_';
      assert filePath[|filePath| - |b| - 1] == '/';
    }
  }
}

/**
 * exportHTML of the static export: every entry of every collection is written to
 * `dist`, then given its Open Graph image; a failure of either is logged for that
 * entry and the export goes on with the next one.
 */
module Export {
  import opened Wrappers
  import opened Content
  import opened OgImage

  /**
   * What the outside world does for one entry: the file path `writeToDisk` returns
   * (None when it throws), the page as read back from that path (None when the read
   * throws), and whether sharp manages to write the PNG.
   */
  datatype EntryWorld = EntryWorld(written: Option<string>, page: Option<string>, rasterSucceeds: bool)

  /** The SVG template, the slug helper applied to titles, and the world per entry. */
  datatype Site = Site(template: string, slugOf: string -> string, world: Entry -> EntryWorld)

  /** A logged action: `create <filePath>` succeeded, or `create <permalink>` failed. */
  datatype Action = Created(filePath: string) | Failed(permalink: string)

  /** A page written back with its og:image tag. */
  datatype Page = Page(filePath: string, html: string)

  /** The log, the PNG paths on disk, the rewritten pages and the PNGs made so far. */
  datatype ExportState = ExportState(log: seq<Action>, existing: set<string>, pages: seq<Page>, images: seq<string>)

  function Start(existing: set<string>): ExportState
  {
    ExportState([], existing, [], [])
  }

  /** The try block runs to the end: the page was written and read back. */
  predicate Completes(w: EntryWorld)
  {
    w.written.Some? && w.page.Some?
  }

  /** The log line for one entry. */
  function Outcome(site: Site, e: Entry): Action
  {
    var w := site.world(e);
    if Completes(w) then Created(w.written.value) else Failed(e.permalink)
  }

  /** The try block once it has run to the end: the page at `filePath` was rewritten, and the PNG at `output` made or not. */
  function PageDone(st: ExportState, filePath: string, output: string, generated: bool, page: string): ExportState
  {
    ExportState(st.log + [Created(filePath)],
                if generated then st.existing + {output} else st.existing,
                st.pages + [Page(filePath, page)],
                if generated then st.images + [output] else st.images)
  }

  /** One turn of the inner loop: the try block, or the catch block when something in it throws. */
  function Step(site: Site, st: ExportState, e: Entry): ExportState
  {
    var w := site.world(e);
    if !Completes(w) then st.(log := st.log + [Failed(e.permalink)])
    else
      var slug := site.slugOf(e.title);
      PageDone(st, w.written.value, ImagePath(slug), ImagePath(slug) !in st.existing && w.rasterSucceeds,
              TaggedPage(w.page.value, slug))
  }

  /** The export of the entries `es`, in order, from `st`. */
  function Run(site: Site, st: ExportState, es: seq<Entry>): ExportState
    decreases |es|
  {
    if es == [] then st else Step(site, Run(site, st, es[..|es| - 1]), es[|es| - 1])
  }

  /** The export of one more entry is one more step. */
  lemma RunSnoc(site: Site, st: ExportState, es: seq<Entry>, e: Entry, es': seq<Entry>)
    requires es' == es + [e]
    ensures Run(site, st, es') == Step(site, Run(site, st, es), e)
  {
    assert es'[..|es|] == es;
  }

  method ExportEntry(site: Site, st: ExportState, e: Entry) returns (next: ExportState)
    ensures next == Step(site, st, e)
  {
    var w := site.world(e);
    if !Completes(w) {
      next := st.(log := st.log + [Failed(e.permalink)]);
    } else {
      var filePath, html := w.written.value, w.page.value;
      var slug := site.slugOf(e.title);
      var o := GenerateOgImage(AsWritten, site.template, e.title, slug, html, st.existing, w.rasterSucceeds);
      next := PageDone(st, filePath, o.imagePath, o.generated, o.html);
    }
  }

  /** exportHTML: the collections one after the other, the entries of each in its order. */
  method ExportHTML(site: Site, collections: seq<Collection>, existing: set<string>) returns (st: ExportState)
    ensures st == Run(site, Start(existing), Flatten(collections))
  {
    st := Start(existing);
    var i := 0;
    while i < |collections|
      invariant 0 <= i <= |collections|
      invariant st == Run(site, Start(existing), Flatten(collections[..i]))
    {
      var collection := collections[i];
      ghost var before := st;
      var j := 0;
      while j < |collection|
        invariant 0 <= j <= |collection|
        invariant st == Run(site, before, collection[..j])
      {
        assert collection[..j] + [collection[j]] == collection[..j + 1];
        RunSnoc(site, before, collection[..j], collection[j], collection[..j + 1]);
        st := ExportEntry(site, st, collection[j]);
        j := j + 1;
      }
      assert collection[..j] == collection;
      RunAppend(site, Start(existing), Flatten(collections[..i]), collection);
      assert collections[..i + 1][..i] == collections[..i];
      i := i + 1;
    }
    assert collections[..i] == collections;
  }

  /** Exporting `a` and then `b` is exporting `a + b`. */
  lemma {:induction false} RunAppend(site: Site, st: ExportState, a: seq<Entry>, b: seq<Entry>)
    decreases |b|
    ensures Run(site, Run(site, st, a), b) == Run(site, st, a + b)
  {
    if b == [] {
      assert a + b == a;
    } else {
      var init, last := b[..|b| - 1], b[|b| - 1];
      assert a + b == (a + init) + [last];
      RunAppend(site, st, a, init);
      RunSnoc(site, Run(site, st, a), init, last, b);
      RunSnoc(site, st, a + init, last, a + b);
    }
  }

  // ---------------------------------------------------------------------------
  // The log
  // ---------------------------------------------------------------------------

  /** One log line per entry, in the order of the entries, failures included. */
  lemma {:induction false} RunLog(site: Site, existing: set<string>, es: seq<Entry>)
    decreases |es|
    ensures |Run(site, Start(existing), es).log| == |es|
    ensures forall k :: 0 <= k < |es| ==> Run(site, Start(existing), es).log[k] == Outcome(site, es[k])
  {
    if es != [] {
      var init, last := es[..|es| - 1], es[|es| - 1];
      var before := Run(site, Start(existing), init);
      RunLog(site, existing, init);
      StepLog(site, before, last);
      LogSnoc(site, before.log, init, last, es);
    }
  }

  lemma LogSnoc(site: Site, log: seq<Action>, init: seq<Entry>, last: Entry, es: seq<Entry>)
    requires |log| == |init| && forall k :: 0 <= k < |init| ==> log[k] == Outcome(site, init[k])
    requires |es| > 0 && init == es[..|es| - 1] && last == es[|es| - 1]
    ensures var log' := log + [Outcome(site, last)];
            |log'| == |es| && forall k :: 0 <= k < |es| ==> log'[k] == Outcome(site, es[k])
  {
  }

  /** Every entry adds its own log line, whatever happens to it. */
  lemma StepLog(site: Site, st: ExportState, e: Entry)
    ensures Step(site, st, e).log == st.log + [Outcome(site, e)]
  {
  }

  /**
   * The entry at position `j` of collection `i` gets its log line after every entry
   * of the collections before it, and whether an earlier entry failed does not matter.
   */
  lemma EntryLoggedInPlace(site: Site, collections: seq<Collection>, existing: set<string>, i: nat, j: nat)
    requires i < |collections| && j < |collections[i]|
    ensures var log := Run(site, Start(existing), Flatten(collections)).log;
            var k := |Flatten(collections[..i])| + j;
            k < |log| && log[k] == Outcome(site, collections[i][j])
  {
    FlattenPosition(collections, i, j);
    RunLog(site, existing, Flatten(collections));
  }

  // ---------------------------------------------------------------------------
  // The images
  // ---------------------------------------------------------------------------

  /**
   * The PNGs made so far are distinct, none of them was there at the start, and the
   * PNGs on disk are exactly those of the start and those made.
   */
  predicate ImagesFresh(start: set<string>, st: ExportState)
  {
    && st.existing == start + (set x | x in st.images)
    && (forall k :: 0 <= k < |st.images| ==> st.images[k] !in start)
    && (forall k, l :: 0 <= k < l < |st.images| ==> st.images[k] != st.images[l])
  }

  lemma StepKeepsImagesFresh(site: Site, start: set<string>, st: ExportState, e: Entry)
    requires ImagesFresh(start, st)
    ensures ImagesFresh(start, Step(site, st, e))
  {
    var w := site.world(e);
    if Completes(w) {
      var slug := site.slugOf(e.title);
      var p := ImagePath(slug);
      PageDoneKeepsImagesFresh(start, st, w.written.value, p, p !in st.existing && w.rasterSucceeds, TaggedPage(w.page.value, slug));
    }
  }

  /** Making a PNG that is not on disk yet keeps the PNGs made fresh. */
  lemma PageDoneKeepsImagesFresh(start: set<string>, st: ExportState, filePath: string, output: string, generated: bool, page: string)
    requires ImagesFresh(start, st)
    requires generated ==> output !in st.existing
    ensures ImagesFresh(start, PageDone(st, filePath, output, generated, page))
  {
    if generated {
      var images := st.images + [output];
      assert (set x | x in images) == (set x | x in st.images) + {output};
    }
  }

  lemma {:induction false} RunKeepsImagesFresh(site: Site, start: set<string>, es: seq<Entry>)
    decreases |es|
    ensures ImagesFresh(start, Run(site, Start(start), es))
  {
    if es == [] {
      assert (set x | x in Start(start).images) == {};
    } else {
      RunKeepsImagesFresh(site, start, es[..|es| - 1]);
      StepKeepsImagesFresh(site, start, Run(site, Start(start), es[..|es| - 1]), es[|es| - 1]);
    }
  }

  /** Every PNG is made at most once, and never one that was there before the export. */
  lemma ImagesMadeOnce(site: Site, existing: set<string>, es: seq<Entry>)
    ensures var st := Run(site, Start(existing), es);
            && (forall k, l :: 0 <= k < l < |st.images| ==> st.images[k] != st.images[l])
            && (forall k :: 0 <= k < |st.images| ==> st.images[k] !in existing)
            && existing <= st.existing
  {
    RunKeepsImagesFresh(site, existing, es);
  }

  /** What is on disk only grows along the export. */
  lemma {:induction false} RunPrefixGrows(site: Site, st: ExportState, es: seq<Entry>, k: nat)
    requires k <= |es|
    decreases |es|
    ensures Run(site, st, es[..k]).existing <= Run(site, st, es).existing
  {
    if k < |es| {
      var n := |es|;
      assert es[..n - 1][..k] == es[..k];
      RunPrefixGrows(site, st, es[..n - 1], k);
    } else {
      assert es[..k] == es;
    }
  }

  // ---------------------------------------------------------------------------
  // Pages and reruns
  // ---------------------------------------------------------------------------

  /** The log and the rewritten pages do not depend on which PNGs were there. */
  lemma {:induction false} PagesIgnoreImages(site: Site, e1: set<string>, e2: set<string>, es: seq<Entry>)
    decreases |es|
    ensures Run(site, Start(e1), es).log == Run(site, Start(e2), es).log
    ensures Run(site, Start(e1), es).pages == Run(site, Start(e2), es).pages
  {
    if es != [] {
      PagesIgnoreImages(site, e1, e2, es[..|es| - 1]);
    }
  }

  lemma {:induction false} RerunPrefix(site: Site, e1: set<string>, e2: set<string>, es: seq<Entry>, k: nat)
    requires k <= |es|
    requires Run(site, Start(e1), es).existing <= e2
    decreases k
    ensures Run(site, Start(e2), es[..k]).images == []
  {
    if k > 0 {
      RerunPrefix(site, e1, e2, es, k - 1);
      var e := es[k - 1];
      assert es[..k][..k - 1] == es[..k - 1] && es[..k][k - 1] == e;
      var first := Run(site, Start(e1), es[..k - 1]);
      var second := Run(site, Start(e2), es[..k - 1]);
      RunKeepsImagesFresh(site, e2, es[..k - 1]);
      RunPrefixGrows(site, Start(e1), es, k);
      RunPrefixGrows(site, Start(e1), es, k - 1);
      var w := site.world(e);
      if Completes(w) {
      }
    }
  }

  /**
   * A second export over the PNGs the first one left behind makes no new PNG, and it
   * logs and rewrites exactly what the first one did.
   */
  lemma RerunMakesNoImages(site: Site, existing: set<string>, es: seq<Entry>)
    ensures var first := Run(site, Start(existing), es);
            var second := Run(site, Start(first.existing), es);
            && second.images == []
            && second.existing == first.existing
            && second.log == first.log
            && second.pages == first.pages
  {
    var first := Run(site, Start(existing), es);
    RerunPrefix(site, existing, first.existing, es, |es|);
    assert es[..|es|] == es;
    RunKeepsImagesFresh(site, first.existing, es);
    PagesIgnoreImages(site, existing, first.existing, es);
  }
}

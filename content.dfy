/**
 * Documentation entries and collections, as the site's code sees them through the
 * collection library: an entry's title, permalink and `meta.category`, and the
 * collection's `all()` and `findByPermalink(url)`.
 */
module Content {
  import opened Wrappers

  /** One documentation page; `category` is None when `meta.category` is undefined. */
  datatype Entry = Entry(title: string, permalink: string, category: Option<string>)

  /** A collection, as the list `all()` returns. */
  type Collection = seq<Entry>

  /** `findByPermalink(url)`: the entry whose permalink is `url`, or undefined. */
  function FindByPermalink(c: Collection, url: string): (r: Option<Entry>)
    ensures r.Some? ==> r.value in c && r.value.permalink == url
    ensures r.None? ==> forall e :: e in c ==> e.permalink != url
  {
    if c == [] then None
    else if c[0].permalink == url then Some(c[0])
    else FindByPermalink(c[1..], url)
  }

  /** The entries of all collections, collection by collection, each in its own order. */
  function Flatten(cs: seq<Collection>): seq<Entry>
  {
    if cs == [] then [] else Flatten(cs[..|cs| - 1]) + cs[|cs| - 1]
  }

  lemma {:induction false} FlattenAppend(cs: seq<Collection>, ds: seq<Collection>)
    decreases |ds|
    ensures Flatten(cs + ds) == Flatten(cs) + Flatten(ds)
  {
    if ds == [] {
      assert cs + ds == cs;
    } else {
      var init, last := ds[..|ds| - 1], ds[|ds| - 1];
      var all := cs + ds;
      assert all[..|all| - 1] == cs + init && all[|all| - 1] == last;
      FlattenAppend(cs, init);
    }
  }

  /** The `j`-th entry of the `i`-th collection comes after all entries of the collections before it. */
  lemma FlattenPosition(cs: seq<Collection>, i: nat, j: nat)
    requires i < |cs| && j < |cs[i]|
    ensures |Flatten(cs[..i])| + j < |Flatten(cs)|
    ensures Flatten(cs)[|Flatten(cs[..i])| + j] == cs[i][j]
  {
    assert cs == cs[..i] + ([cs[i]] + cs[i + 1..]);
    FlattenAppend(cs[..i], [cs[i]] + cs[i + 1..]);
    FlattenAppend([cs[i]], cs[i + 1..]);
    assert [cs[i]][..0] == [];
  }
}

/**
 * The entry table together with the feeds' entry counters (the counter cache
 * of `belongs_to :feed, counter_cache: true`), and the two operations that
 * change it: ingestion (`Entry.add`) and enrichment (`Entry#enrich`).
 */
module EntryStore {
  import opened Wrappers
  import opened Strings
  import opened JsonValues
  import opened Entries

  /** The first stored entry whose url equals `url` (`find_by(url: url)`);
      a nil url only finds rows whose url is nil. */
  function FindByUrl(entries: seq<Entry>, url: Option<string>): (r: Option<Entry>)
    ensures r.Some? ==> r.value in entries && r.value.url == url
    ensures r.None? <==> forall e :: e in entries ==> e.url != url
  {
    if entries == [] then None
    else if entries[0].url == url then Some(entries[0])
    else
      var r := FindByUrl(entries[1..], url);
      assert forall e :: e in entries ==> e == entries[0] || e in entries[1..];
      r
  }

  /** How many of `entries` belong to `feed`. */
  function CountOf(entries: seq<Entry>, feed: FeedId): (n: nat)
    ensures n <= |entries|
  {
    if entries == [] then 0
    else (if entries[0].feedId == feed then 1 else 0) + CountOf(entries[1..], feed)
  }

  lemma {:induction false} CountOfAppend(entries: seq<Entry>, e: Entry, feed: FeedId)
    ensures CountOf(entries + [e], feed) == CountOf(entries, feed) + (if e.feedId == feed then 1 else 0)
  {
    if entries == [] {
      assert [e][1..] == [];
    } else {
      assert (entries + [e])[1..] == entries[1..] + [e];
      CountOfAppend(entries[1..], e, feed);
    }
  }

  /** Replacing an entry by one of the same feed keeps every count. */
  lemma {:induction false} CountOfUpdate(entries: seq<Entry>, i: nat, e: Entry, feed: FeedId)
    requires i < |entries| && e.feedId == entries[i].feedId
    ensures CountOf(entries[i := e], feed) == CountOf(entries, feed)
  {
    if i > 0 {
      assert entries[i := e][1..] == entries[1..][i - 1 := e];
      CountOfUpdate(entries[1..], i - 1, e, feed);
    }
  }

  /** No two entries share a url. */
  ghost predicate UniqueUrls(entries: seq<Entry>) {
    forall i, j :: 0 <= i < j < |entries| ==> entries[i].url != entries[j].url
  }

  /** What every stored row satisfies: the validations passed when it was
      written, the normalised categories, and enrichment fields that are
      either all set or all unset. */
  ghost predicate WellFormed(e: Entry) {
    e.url.Some? && !Blank(e.url.value) && !Blank(e.title) &&
    (forall i :: 0 <= i < |e.categories| ==> IsLower(e.categories[i])) &&
    (e.enrichedAt.Some? <==> e.annotations.Some? && e.sentiment.Some?)
  }

  /** The table invariant: unique urls and ids, well-formed rows of existing
      feeds, and every feed's counter equal to the number of its entries. */
  ghost predicate Consistent(entries: seq<Entry>, counts: map<FeedId, nat>, nextId: nat) {
    UniqueUrls(entries) &&
    (forall i, j :: 0 <= i < j < |entries| ==> entries[i].id != entries[j].id) &&
    (forall e :: e in entries ==> WellFormed(e) && e.id < nextId && e.feedId in counts) &&
    (forall f :: f in counts ==> counts[f] == CountOf(entries, f))
  }

  /** The outcome of the checks `Entry.add` makes before the entry is stored:
      the url pre-check, the model validations (url present and unique, title
      present, owning feed exists), and the unique index at insert time, which
      rejects a url that a concurrent ingestion committed in between. */
  function Admits(entries: seq<Entry>, counts: map<FeedId, nat>, feedId: FeedId,
                  item: SourceItem, concurrent: set<string>): (ok: bool)
    ensures ok <==>
      (forall e :: e in entries ==> e.url != item.url) &&
      item.url.Some? && !Blank(item.url.value) &&
      feedId in counts && item.url.value !in concurrent
  {
    FindByUrl(entries, item.url).None? &&
    item.url.Some? && !Blank(item.url.value) &&
    feedId in counts &&
    item.url.value !in concurrent
  }

  class Store {
    /** The rows of the entries table, in insertion order. */
    var entries: seq<Entry>
    /** `feeds.entries_count`, one counter per existing feed. */
    var counts: map<FeedId, nat>
    /** The id the next inserted row receives. */
    var nextId: nat

    ghost predicate Valid()
      reads this
    {
      Consistent(entries, counts, nextId)
    }

    /** An empty table over the given feeds, every counter at zero. */
    constructor (feeds: set<FeedId>)
      ensures Valid()
      ensures entries == [] && counts.Keys == feeds && nextId == 1
      ensures forall f :: f in counts ==> counts[f] == 0
    {
      entries := [];
      counts := map f | f in feeds :: 0;
      nextId := 1;
    }

    /** `Entry.add(feed_id:, entry:)`: stores a normalised copy of `item` unless
        its url is already taken or it fails validation, and bumps the feed's
        counter. `now` is the current time; `concurrent` holds the urls other
        ingestions committed after this call's checks. */
    method Add(feedId: FeedId, item: SourceItem, now: Time, concurrent: set<string>)
      returns (created: bool, entry: Option<Entry>)
      requires Valid()
      modifies this
      ensures Valid()
      ensures created <==> entry.Some?
      ensures created <==> Admits(old(entries), old(counts), feedId, item, concurrent)
      ensures !created ==>
        entries == old(entries) && counts == old(counts) && nextId == old(nextId)
      ensures created ==>
        entry.value == NewEntry(old(nextId), feedId, item, now) &&
        entries == old(entries) + [entry.value] &&
        counts == old(counts)[feedId := old(counts)[feedId] + 1] &&
        nextId == old(nextId) + 1
    {
      ghost var admitted := Admits(entries, counts, feedId, item, concurrent);
      // the url pre-check
      if FindByUrl(entries, item.url).Some? {
        assert !admitted;
        return false, None;
      }
      var attrs := NewEntry(nextId, feedId, item, now);
      assert attrs.url == item.url;
      // create!: validations raise RecordInvalid
      var urlOk := attrs.url.Some? && !Blank(attrs.url.value) && FindByUrl(entries, attrs.url).None?;
      var titleOk := !Blank(attrs.title);
      var feedOk := feedId in counts;
      if !(urlOk && titleOk && feedOk) {
        assert !admitted;
        return false, None;
      }
      // the unique index raises RecordNotUnique
      if attrs.url.value in concurrent {
        assert !admitted;
        return false, None;
      }
      assert admitted;
      // insert, then the counter cache increments the feed's counter
      StoredAfterAdd(entries, counts, nextId, attrs);
      entries := entries + [attrs];
      counts := counts[feedId := counts[feedId] + 1];
      nextId := nextId + 1;
      return true, Some(attrs);
    }

    /** `Entry#enrich` on the row at index `i`: both service calls are made on
        the entry's text before anything is assigned; when both succeed the
        annotations, the sentiment and the enrichment time are saved together,
        otherwise nothing changes. */
    method Enrich(i: nat, stripTags: string -> string,
                  annotate: string -> Option<seq<Annotation>>,
                  scoreSentiment: string -> Option<Json>, now: Time)
      returns (ok: bool)
      requires Valid() && i < |entries|
      modifies this
      ensures Valid()
      ensures counts == old(counts) && nextId == old(nextId)
      ensures var text := Entries.Text(old(entries[i]), stripTags);
        ok <==> annotate(text).Some? && scoreSentiment(text).Some?
      ensures !ok ==> entries == old(entries)
      ensures ok ==>
        var text := Entries.Text(old(entries[i]), stripTags);
        entries == old(entries)[i := WithEnrichment(old(entries[i]), annotate(text).value,
                                                    scoreSentiment(text).value, now)]
    {
      var annotations := annotate(Entries.Text(entries[i], stripTags));
      if annotations.None? {
        return false;
      }
      var sentiment := scoreSentiment(Entries.Text(entries[i], stripTags));
      if sentiment.None? {
        return false;
      }
      var enriched := WithEnrichment(entries[i], annotations.value, sentiment.value, now);
      StoredAfterEnrich(entries, counts, nextId, i, enriched);
      assert entries[i := enriched] == old(entries)[i := enriched];
      entries := entries[i := enriched];
      return true;
    }
  }

  /** Appending an admitted, normalised entry keeps the table invariant. */
  lemma StoredAfterAdd(entries: seq<Entry>, counts: map<FeedId, nat>, nextId: nat, e: Entry)
    requires Consistent(entries, counts, nextId)
    requires WellFormed(e) && e.id == nextId && e.feedId in counts
    requires FindByUrl(entries, e.url).None?
    ensures Consistent(entries + [e], counts[e.feedId := counts[e.feedId] + 1], nextId + 1)
  {
    var s := entries + [e];
    forall i, j | 0 <= i < j < |s| ensures s[i].url != s[j].url && s[i].id != s[j].id {
      if j == |entries| {
        assert s[i] in entries;
      }
    }
    forall f | f in counts
      ensures counts[e.feedId := counts[e.feedId] + 1][f] == CountOf(s, f)
    {
      CountOfAppend(entries, e, f);
    }
  }

  /** Replacing one row's enrichment fields keeps the table invariant. */
  lemma StoredAfterEnrich(entries: seq<Entry>, counts: map<FeedId, nat>, nextId: nat, i: nat, e: Entry)
    requires Consistent(entries, counts, nextId) && i < |entries|
    requires e.(annotations := entries[i].annotations, sentiment := entries[i].sentiment,
                enrichedAt := entries[i].enrichedAt) == entries[i]
    requires e.annotations.Some? && e.sentiment.Some? && e.enrichedAt.Some?
    ensures Consistent(entries[i := e], counts, nextId)
  {
    var s := entries[i := e];
    assert e.url == entries[i].url && e.id == entries[i].id && e.feedId == entries[i].feedId;
    forall a, b | 0 <= a < b < |s| ensures s[a].url != s[b].url && s[a].id != s[b].id {
      assert s[a].url == entries[a].url && s[b].url == entries[b].url;
      assert s[a].id == entries[a].id && s[b].id == entries[b].id;
    }
    forall x | x in s ensures WellFormed(x) && x.id < nextId && x.feedId in counts {
      var k :| 0 <= k < |s| && s[k] == x;
      if k != i {
        assert entries[k] in entries;
      } else {
        assert entries[i] in entries;
      }
    }
    forall f | f in counts ensures counts[f] == CountOf(s, f) {
      CountOfUpdate(entries, i, e, f);
    }
  }

  /** Once a url is stored, every later ingestion of that url is refused. */
  lemma SecondAddRefused(entries: seq<Entry>, counts: map<FeedId, nat>, id: nat, feedId: FeedId,
                         item: SourceItem, now: Time, counts': map<FeedId, nat>,
                         feedId': FeedId, item': SourceItem, concurrent: set<string>)
    requires item'.url == item.url
    ensures !Admits(entries + [NewEntry(id, feedId, item, now)], counts', feedId', item', concurrent)
  {
    var e := NewEntry(id, feedId, item, now);
    assert e in entries + [e];
  }
}

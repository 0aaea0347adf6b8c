/** The content index: every markdown file the watcher reports becomes an
    entry (a dated blog post) or a page, reachable by file path, by url and,
    for entries, through the archive and the featured list.

    JavaScript shares one object among all these indexes, so an update
    through `Object.assign` shows everywhere at once. Here the objects live
    in a record table and every index holds record ids (positions in that
    table), which keeps that sharing. */
module Store {
  import opened Results
  import opened Text
  import opened Dates
  import opened Content
  import opened Sorting
  import opened Markdown

  /** The code the store calls but that is not part of this model: the slug
      function, `Date.parse` with the time zone of the machine, and the
      markdown renderer. */
  datatype Env = Env(slugify: string -> string, parseDate: string -> Option<ValidDate>, toMarkup: string -> string)

  datatype Entry = Entry(
    url: string,
    title: string,
    featured: bool,
    date: ValidDate,
    published: string,
    excerpt: string,
    id: string,
    body: string)

  /** A page is its front matter with `title`, `body` and `url` set. */
  type Fields = map<string, string>

  datatype Record = EntryRecord(entry: Entry) | PageRecord(fields: Fields)

  /** The indexes of the store. `entryKeys` is the order of `entries` as
      `Object.keys` reports it: the order in which the urls were first
      added. The archive maps a year to a two-digit month to record ids. */
  datatype Store = Store(
    records: seq<Record>,
    pathMap: map<string, nat>,
    entries: map<string, nat>,
    entryKeys: seq<string>,
    pages: map<string, nat>,
    archive: map<int, map<string, seq<nat>>>,
    featured: seq<nat>)

  const Empty: Store := Store([], map[], map[], [], map[], map[], [])

  /** The new store and whether a hot-reload notice goes out. */
  datatype Step = Step(store: Store, notify: bool)

  predicate IdsBelow(ids: seq<nat>, n: nat) {
    forall i :: 0 <= i < |ids| ==> ids[i] < n
  }

  /** A month key as `archive` writes it: "01" to "12". */
  predicate IsMonthKey(m: string) {
    |m| == 2 && AllDigits(m) && 1 <= DecimalValue(m) <= 12
  }

  predicate NoDuplicates(s: seq<string>) {
    forall i, j :: 0 <= i < j < |s| ==> s[i] != s[j]
  }

  /** What every reachable store satisfies: each index points into the
      record table, the key order lists each url key once, and the archive
      uses month keys. */
  predicate Valid(st: Store) {
    && IndexesValid(st)
    && ArchiveValid(st.archive, |st.records|)
    && IdsBelow(st.featured, |st.records|)
    && KeysValid(st.entries, st.entryKeys)
  }

  predicate IndexesValid(st: Store) {
    var n := |st.records|;
    && (forall p :: p in st.pathMap ==> st.pathMap[p] < n)
    && (forall u :: u in st.entries ==> st.entries[u] < n)
    && (forall u :: u in st.pages ==> st.pages[u] < n)
  }

  predicate ArchiveValid(archive: map<int, map<string, seq<nat>>>, n: nat) {
    forall y, m :: y in archive && m in archive[y] ==> IsMonthKey(m) && IdsBelow(archive[y][m], n)
  }

  predicate KeysValid(entries: map<string, nat>, keys: seq<string>) {
    && NoDuplicates(keys)
    && (forall u :: u in entries ==> u in keys)
    && (forall i :: 0 <= i < |keys| ==> keys[i] in entries)
    && (forall i :: 0 <= i < |keys| ==> '/' in keys[i])
  }

  lemma EmptyValid()
    ensures Valid(Empty)
  {
  }

  /** `b.date - a.date` compares by time value; a record that is not an
      entry has none. */
  function TimeOf(records: seq<Record>, id: nat): int {
    if id < |records| && records[id].EntryRecord? then records[id].entry.date.time else 0
  }

  function TimeKey(records: seq<Record>): nat -> int {
    (id: nat) => TimeOf(records, id)
  }

  /** `Object.assign(target, source)`: an entry has a fixed set of fields,
      so it is replaced whole; a page keeps the fields the new one lacks. */
  function Assign(target: Record, source: Record): (r: Record)
  {
    match (target, source)
    case (PageRecord(a), PageRecord(b)) => PageRecord(a + b)
    case _ => source
  }

  /** Assignment sets every field of the source and keeps the other fields
      of a page. */
  lemma AssignFields(a: Fields, b: Fields)
    ensures Assign(PageRecord(a), PageRecord(b)).fields.Keys == a.Keys + b.Keys
    ensures forall k :: k in b ==> Assign(PageRecord(a), PageRecord(b)).fields[k] == b[k]
    ensures forall k :: k in a && k !in b ==> Assign(PageRecord(a), PageRecord(b)).fields[k] == a[k]
  {
  }

  /** The bucket an entry falls into. */
  function Bucket(archive: map<int, map<string, seq<nat>>>, year: int, month: string): seq<nat> {
    if year in archive && month in archive[year] then archive[year][month] else []
  }

  /** The archive with the bucket of `year` and `month` set to `ids`. */
  function Place(archive: map<int, map<string, seq<nat>>>, year: int, month: string, ids: seq<nat>): map<int, map<string, seq<nat>>> {
    var months := if year in archive then archive[year] else map[];
    archive[year := months[month := ids]]
  }

  /** Setting one bucket changes no other. */
  lemma PlaceBucket(archive: map<int, map<string, seq<nat>>>, year: int, month: string, ids: seq<nat>)
    ensures Bucket(Place(archive, year, month, ids), year, month) == ids
    ensures forall y, m :: y != year || m != month ==> Bucket(Place(archive, year, month, ids), y, m) == Bucket(archive, y, m)
    ensures Place(archive, year, month, ids).Keys == archive.Keys + {year}
    ensures forall y, m :: y in Place(archive, year, month, ids) && m in Place(archive, year, month, ids)[y] ==>
      (y == year && m == month) || (y in archive && m in archive[y] && Place(archive, year, month, ids)[y][m] == archive[y][m])
  {
  }

  /** `addToArchive(entry)`: the entry joins its year and month bucket, and
      the featured list when it is featured; both are then sorted latest
      first. */
  function AddToArchive(st: Store, id: nat): (r: Store)
    requires id < |st.records| && st.records[id].EntryRecord?
    ensures r.records == st.records && r.pathMap == st.pathMap && r.entries == st.entries
    ensures r.entryKeys == st.entryKeys && r.pages == st.pages
  {
    var e := st.records[id].entry;
    var key := TimeKey(st.records);
    var bucket := SortByKey(Bucket(st.archive, e.date.year, MonthKey(e.date)) + [id], key);
    var featured := if e.featured then SortByKey(st.featured + [id], key) else st.featured;
    st.(archive := Place(st.archive, e.date.year, MonthKey(e.date), bucket), featured := featured)
  }

  /** After the insert the entry's bucket holds the id besides what it held,
      latest first, and no other bucket changes. */
  lemma AddToArchiveBucket(st: Store, id: nat)
    requires id < |st.records| && st.records[id].EntryRecord?
    ensures var d := st.records[id].entry.date;
      var b := Bucket(AddToArchive(st, id).archive, d.year, MonthKey(d));
      && multiset(b) == multiset(Bucket(st.archive, d.year, MonthKey(d))) + multiset{id}
      && Descending(b, TimeKey(st.records))
    ensures var d := st.records[id].entry.date;
      forall y, m :: y != d.year || m != MonthKey(d) ==> Bucket(AddToArchive(st, id).archive, y, m) == Bucket(st.archive, y, m)
  {
    var d := st.records[id].entry.date;
    var grown := Bucket(st.archive, d.year, MonthKey(d)) + [id];
    SortDescending(grown, TimeKey(st.records));
    PlaceBucket(st.archive, d.year, MonthKey(d), SortByKey(grown, TimeKey(st.records)));
  }

  /** The featured list gains the id exactly when the entry is featured, and
      is then sorted latest first. */
  lemma AddToArchiveFeatured(st: Store, id: nat)
    requires id < |st.records| && st.records[id].EntryRecord?
    ensures var r := AddToArchive(st, id);
      st.records[id].entry.featured ==> multiset(r.featured) == multiset(st.featured) + multiset{id} && Descending(r.featured, TimeKey(st.records))
    ensures !st.records[id].entry.featured ==> AddToArchive(st, id).featured == st.featured
  {
    SortDescending(st.featured + [id], TimeKey(st.records));
  }

  lemma AddToArchiveValid(st: Store, id: nat)
    requires Valid(st)
    requires id < |st.records| && st.records[id].EntryRecord?
    ensures Valid(AddToArchive(st, id))
  {
    var d := st.records[id].entry.date;
    var key := TimeKey(st.records);
    var grown := Bucket(st.archive, d.year, MonthKey(d)) + [id];
    var r := AddToArchive(st, id);
    BucketIdsBelow(st.archive, d.year, MonthKey(d), |st.records|);
    SortedIdsBelow(grown, key, |st.records|);
    SortedIdsBelow(st.featured + [id], key, |st.records|);
    TwoDigitMonth(d);
    PlaceValid(st.archive, d.year, MonthKey(d), SortByKey(grown, key), |st.records|);
    assert IndexesValid(r);
  }

  lemma BucketIdsBelow(archive: map<int, map<string, seq<nat>>>, year: int, month: string, n: nat)
    requires ArchiveValid(archive, n)
    ensures IdsBelow(Bucket(archive, year, month), n)
  {
    if year in archive && month in archive[year] {
      assert IsMonthKey(month) && IdsBelow(archive[year][month], n);
    }
  }

  lemma PlaceValid(archive: map<int, map<string, seq<nat>>>, year: int, month: string, ids: seq<nat>, n: nat)
    requires ArchiveValid(archive, n) && IsMonthKey(month) && IdsBelow(ids, n)
    ensures ArchiveValid(Place(archive, year, month, ids), n)
  {
    PlaceBucket(archive, year, month, ids);
  }

  lemma TwoDigitMonth(d: ValidDate)
    ensures IsMonthKey(MonthKey(d))
  {
    MonthKeyShape(d);
  }

  lemma SortedIdsBelow(ids: seq<nat>, key: nat -> int, n: nat)
    requires IdsBelow(ids, n)
    ensures IdsBelow(SortByKey(ids, key), n)
  {
    var r := SortByKey(ids, key);
    SortDescending(ids, key);
    forall i | 0 <= i < |r|
      ensures r[i] < n
    {
      assert r[i] in multiset(r);
      assert r[i] in multiset(ids);
    }
  }

  /** The entry record that `addEntry` builds from a parsed file. */
  function MakeEntry(env: Env, fileName: string, p: Parsed): Entry {
    var title := ExtractTitle(p.content);
    var url := GenURL(env.slugify, fileName, title, p.date);
    Entry(url, title, p.featured, p.date, p.published, p.excerpt, GenID(p.date, url), ConvertToHtml(env.toMarkup, ExtractBody(p.content)))
  }

  /** The url of an entry names its day, and its id reads back as its year
      and url. */
  lemma EntryIdentity(env: Env, fileName: string, p: Parsed)
    ensures var e := MakeEntry(env, fileName, p);
      && ParseTag(e.id) == Some((p.date.year, e.url))
      && e.url[..|YearToken(p.date)|] == YearToken(p.date)
  {
    var e := MakeEntry(env, fileName, p);
    TagRoundTrip(p.date, e.url);
  }

  /** A record new to the store: it gets the next id, and the path points to
      it. */
  function InsertRecord(st: Store, fileName: string, rec: Record): (r: Store) {
    st.(records := st.records + [rec], pathMap := st.pathMap[fileName := |st.records|])
  }

  /** `entries[url] = entry; pathMap[fileName] = entry; addToArchive(entry)`. */
  function InsertEntry(st: Store, fileName: string, e: Entry): (r: Store) {
    AddToArchive(IndexEntry(st, fileName, e), |st.records|)
  }

  /** The record and its path and url keys, before the archive insert. */
  function IndexEntry(st: Store, fileName: string, e: Entry): (r: Store) {
    var id := |st.records|;
    var st1 := InsertRecord(st, fileName, EntryRecord(e));
    var keys := if e.url in st.entries then st.entryKeys else st.entryKeys + [e.url];
    st1.(entries := st.entries[e.url := id], entryKeys := keys)
  }

  /** `Object.assign(pathMap[fileName], record)`: the record changes and no
      index does. */
  function Overwrite(st: Store, id: nat, rec: Record): (r: Store)
    requires id < |st.records|
  {
    st.(records := st.records[id := Assign(st.records[id], rec)])
  }

  lemma IdsBelowGrow(ids: seq<nat>, n: nat)
    requires IdsBelow(ids, n)
    ensures IdsBelow(ids, n + 1)
  {
  }

  lemma ArchiveValidGrow(archive: map<int, map<string, seq<nat>>>, n: nat)
    requires ArchiveValid(archive, n)
    ensures ArchiveValid(archive, n + 1)
  {
    forall y, m | y in archive && m in archive[y]
      ensures IsMonthKey(m) && IdsBelow(archive[y][m], n + 1)
    {
      assert IsMonthKey(m) && IdsBelow(archive[y][m], n);
      IdsBelowGrow(archive[y][m], n);
    }
  }

  /** A url is added to the key order only the first time it is seen. */
  lemma KeysValidAdd(entries: map<string, nat>, keys: seq<string>, url: string, id: nat)
    requires KeysValid(entries, keys) && '/' in url
    ensures KeysValid(entries[url := id], if url in entries then keys else keys + [url])
  {
  }

  lemma InsertEntryValid(st: Store, fileName: string, e: Entry)
    requires Valid(st) && '/' in e.url
    ensures Valid(InsertEntry(st, fileName, e))
  {
    IndexEntryValid(st, fileName, e);
    AddToArchiveValid(IndexEntry(st, fileName, e), |st.records|);
  }

  lemma IndexEntryValid(st: Store, fileName: string, e: Entry)
    requires Valid(st) && '/' in e.url
    ensures Valid(IndexEntry(st, fileName, e))
    ensures |IndexEntry(st, fileName, e).records| == |st.records| + 1
    ensures IndexEntry(st, fileName, e).records[|st.records|] == EntryRecord(e)
  {
    var id := |st.records|;
    var r := IndexEntry(st, fileName, e);
    assert r.archive == st.archive && r.featured == st.featured;
    ArchiveValidGrow(st.archive, id);
    IdsBelowGrow(st.featured, id);
    assert KeysValid(r.entries, r.entryKeys) by {
      KeysValidAdd(st.entries, st.entryKeys, e.url, id);
    }
    assert IndexesValid(r) by {
      assert |r.records| == id + 1;
    }
  }

  /** An insert adds the record under the next id and points the path and
      the url at it; pages stay as they were, and the url joins the key
      order if it is new. */
  lemma InsertEntrySpec(st: Store, fileName: string, e: Entry)
    ensures var r := InsertEntry(st, fileName, e);
      var id := |st.records|;
      && r.records == st.records + [EntryRecord(e)]
      && r.pathMap == st.pathMap[fileName := id]
      && r.entries == st.entries[e.url := id]
      && r.pages == st.pages
      && r.entryKeys == if e.url in st.entries then st.entryKeys else st.entryKeys + [e.url]
  {
  }

  /** An update changes the one record the path points to and nothing else:
      no key, no bucket and no featured position moves, even when the date
      changed. */
  lemma OverwriteSpec(st: Store, id: nat, rec: Record)
    requires id < |st.records|
    ensures var r := Overwrite(st, id, rec);
      && |r.records| == |st.records|
      && r.records[id] == Assign(st.records[id], rec)
      && (forall i :: 0 <= i < |st.records| && i != id ==> r.records[i] == st.records[i])
      && r.pathMap == st.pathMap && r.entries == st.entries && r.entryKeys == st.entryKeys
      && r.pages == st.pages && r.archive == st.archive && r.featured == st.featured
  {
  }

  lemma OverwriteValid(st: Store, id: nat, rec: Record)
    requires Valid(st) && id < |st.records|
    ensures Valid(Overwrite(st, id, rec))
  {
    var r := Overwrite(st, id, rec);
    assert IndexesValid(r);
  }

  /** `addEntry({ path: fileName }, update)` once the file is read and its
      front matter `m` split off. */
  function AddEntry(env: Env, st: Store, fileName: string, m: Matter, update: bool): (r: Result<Step, string>)
    requires Valid(st)
    ensures r.Err? <==> ParseEntry(env.parseDate, m, fileName).Err?
    ensures r.Err? ==> r.error == fileName + " is not dated"
    ensures r.Ok? ==> r.value.notify == (update && !m.hidden)
    ensures r.Ok? && m.hidden ==> r.value.store == st
  {
    var p :- ParseEntry(env.parseDate, m, fileName);
    if p.hidden then Ok(Step(st, false))
    else
      var e := MakeEntry(env, fileName, p);
      var st' := if update && fileName in st.pathMap then Overwrite(st, st.pathMap[fileName], EntryRecord(e))
                 else InsertEntry(st, fileName, e);
      Ok(Step(st', update))
  }

  /** `addPage({ path: fileName }, update)` once the file is read and its
      front matter `data` split off from `content`. */
  function AddPage(env: Env, st: Store, fileName: string, data: Fields, content: string, update: bool): (r: Step)
    requires Valid(st)
    ensures r.notify == update
  {
    var page := MakePage(env, fileName, data, content);
    var st' := if update && fileName in st.pathMap then Overwrite(st, st.pathMap[fileName], PageRecord(page))
               else InsertRecord(st, fileName, PageRecord(page)).(pages := st.pages[PageName(fileName) := |st.records|]);
    Step(st', update)
  }

  /** `{ ...data, title, body, url }`. */
  function MakePage(env: Env, fileName: string, data: Fields, content: string): Fields {
    data + map["title" := ExtractTitle(content), "body" := ConvertToHtml(env.toMarkup, ExtractBody(content)), "url" := PageName(fileName)]
  }

  /** The three computed fields win over front-matter fields of the same
      name; every other front-matter field is kept. */
  lemma PageFields(env: Env, fileName: string, data: Fields, content: string)
    ensures var page := MakePage(env, fileName, data, content);
      && page.Keys == data.Keys + {"title", "body", "url"}
      && page["title"] == ExtractTitle(content)
      && page["body"] == ConvertToHtml(env.toMarkup, ExtractBody(content))
      && page["url"] == PageName(fileName)
      && forall k :: k in data && k !in {"title", "body", "url"} ==> page[k] == data[k]
  {
    Spread(data, ExtractTitle(content), ConvertToHtml(env.toMarkup, ExtractBody(content)), PageName(fileName));
  }

  lemma Spread(data: Fields, title: string, body: string, url: string)
    ensures var page := data + map["title" := title, "body" := body, "url" := url];
      && page.Keys == data.Keys + {"title", "body", "url"}
      && page["title"] == title && page["body"] == body && page["url"] == url
      && forall k :: k in data && k !in {"title", "body", "url"} ==> page[k] == data[k]
  {
  }
  /** A hidden entry changes nothing and sends no notice, but an undated
      one is rejected before its `hidden` flag is looked at. */
  lemma HiddenEntryIgnored(env: Env, st: Store, fileName: string, m: Matter, update: bool)
    requires Valid(st) && m.hidden
    ensures ParseEntry(env.parseDate, m, fileName).Ok? ==> AddEntry(env, st, fileName, m, update) == Ok(Step(st, false))
    ensures m.date.None? ==> AddEntry(env, st, fileName, m, update) == Err(fileName + " is not dated")
  {
  }

  /** Every call that succeeds leaves a valid store. */
  lemma AddEntryValid(env: Env, st: Store, fileName: string, m: Matter, update: bool)
    requires Valid(st)
    ensures AddEntry(env, st, fileName, m, update).Ok? ==> Valid(AddEntry(env, st, fileName, m, update).value.store)
  {
    var p := ParseEntry(env.parseDate, m, fileName);
    if p.Ok? && !p.value.hidden {
      var e := MakeEntry(env, fileName, p.value);
      if update && fileName in st.pathMap {
        OverwriteValid(st, st.pathMap[fileName], EntryRecord(e));
      } else {
        assert e.url[|YearToken(p.value.date)|] == '/';
        InsertEntryValid(st, fileName, e);
      }
    }
  }

  /** A visible entry that is not an update of a known path is inserted:
      its url, path and archive bucket all lead to it. */
  lemma AddEntryInserts(env: Env, st: Store, fileName: string, m: Matter, update: bool)
    requires Valid(st)
    requires ParseEntry(env.parseDate, m, fileName).Ok? && !m.hidden
    requires !(update && fileName in st.pathMap)
    ensures var p := ParseEntry(env.parseDate, m, fileName).value;
      var e := MakeEntry(env, fileName, p);
      var r := AddEntry(env, st, fileName, m, update).value.store;
      var id := |st.records|;
      && r.records == st.records + [EntryRecord(e)]
      && r.entries[e.url] == id && r.pathMap[fileName] == id
      && e.url in r.entryKeys
      && id in Bucket(r.archive, p.date.year, MonthKey(p.date))
      && (id in r.featured <==> m.featured)
  {
    var p := ParseEntry(env.parseDate, m, fileName).value;
    var e := MakeEntry(env, fileName, p);
    var id := |st.records|;
    InsertEntrySpec(st, fileName, e);
    var st1 := InsertRecord(st, fileName, EntryRecord(e));
    var keys := if e.url in st.entries then st.entryKeys else st.entryKeys + [e.url];
    var st2 := st1.(entries := st.entries[e.url := id], entryKeys := keys);
    AddToArchiveBucket(st2, id);
    AddToArchiveFeatured(st2, id);
    var b := Bucket(AddToArchive(st2, id).archive, p.date.year, MonthKey(p.date));
    assert id in multiset(b);
    if !m.featured {
      assert !(id in st.featured) by {
        assert IdsBelow(st.featured, id);
      }
    } else {
      assert id in multiset(AddToArchive(st2, id).featured);
    }
  }

  /** An update of a known path rewrites that record only. */
  lemma AddEntryUpdates(env: Env, st: Store, fileName: string, m: Matter)
    requires Valid(st)
    requires ParseEntry(env.parseDate, m, fileName).Ok? && !m.hidden
    requires fileName in st.pathMap
    ensures var e := MakeEntry(env, fileName, ParseEntry(env.parseDate, m, fileName).value);
      var id := st.pathMap[fileName];
      var r := AddEntry(env, st, fileName, m, true).value;
      && r.notify
      && r.store == Overwrite(st, id, EntryRecord(e))
      && (st.records[id].EntryRecord? ==> r.store.records[id] == EntryRecord(e))
  {
    var p := ParseEntry(env.parseDate, m, fileName).value;
    var e := MakeEntry(env, fileName, p);
    var id := st.pathMap[fileName];
    assert id < |st.records|;
    assert AddEntry(env, st, fileName, m, true) == Ok(Step(Overwrite(st, id, EntryRecord(e)), true));
  }

  lemma AddPageValid(env: Env, st: Store, fileName: string, data: Fields, content: string, update: bool)
    requires Valid(st)
    ensures Valid(AddPage(env, st, fileName, data, content, update).store)
  {
    var page := MakePage(env, fileName, data, content);
    if update && fileName in st.pathMap {
      OverwriteValid(st, st.pathMap[fileName], PageRecord(page));
    } else {
      var r := AddPage(env, st, fileName, data, content, update).store;
      ArchiveValidGrow(st.archive, |st.records|);
      IdsBelowGrow(st.featured, |st.records|);
      assert IndexesValid(r);
    }
  }

  /** A new page is found by its name and its path; entries and the archive
      do not change. */
  lemma AddPageInserts(env: Env, st: Store, fileName: string, data: Fields, content: string, update: bool)
    requires Valid(st)
    requires !(update && fileName in st.pathMap)
    ensures var r := AddPage(env, st, fileName, data, content, update).store;
      var id := |st.records|;
      && r.records == st.records + [PageRecord(MakePage(env, fileName, data, content))]
      && r.pages == st.pages[PageName(fileName) := id] && r.pathMap == st.pathMap[fileName := id]
      && r.entries == st.entries && r.entryKeys == st.entryKeys
      && r.archive == st.archive && r.featured == st.featured
  {
  }

  /** Updating a page keeps the fields of its previous version that the new
      front matter no longer has. */
  lemma PageUpdateKeepsOldFields(env: Env, st: Store, fileName: string, data: Fields, content: string)
    requires Valid(st)
    requires fileName in st.pathMap && st.records[st.pathMap[fileName]].PageRecord?
    ensures var id := st.pathMap[fileName];
      var before := st.records[id].fields;
      var page := MakePage(env, fileName, data, content);
      var r := AddPage(env, st, fileName, data, content, true);
      && r.notify
      && r.store.records[id] == PageRecord(before + page)
      && (forall k :: k in before && k !in page ==> r.store.records[id].fields[k] == before[k])
      && r.store.pages == st.pages && r.store.pathMap == st.pathMap
  {
  }
}

/** Static generation: the routes to render, and the cover images written
    after rendering. The file system is a set of image names: `existsSync`
    asks whether a name is in it, and `writeFile` adds one. */
module Generate {
  import opened Text
  import opened Store

  /** The routes that exist whatever the content. */
  const FixedRoutes: seq<string> := ["/", "/about", "/archive", "/videos", "/influences"]

  /** The route of an entry key. */
  function Route(key: string): string {
    "/" + key
  }

  /** `paths(app, add)`: the order in which routes are added. */
  function Paths(keys: seq<string>): (r: seq<string>) {
    FixedRoutes + seq(|keys|, i requires 0 <= i < |keys| => Route(keys[i]))
  }

  /** Dropping the fixed routes and the leading "/" of each remaining one
      gives back the entry keys: the fixed routes come first, then one
      route per key, in key order. */
  lemma PathsRoundTrip(keys: seq<string>)
    ensures |Paths(keys)| == |FixedRoutes| + |keys|
    ensures Paths(keys)[..|FixedRoutes|] == FixedRoutes
    ensures forall i :: |FixedRoutes| <= i < |Paths(keys)| ==> |Paths(keys)[i]| > 0 && Paths(keys)[i][0] == '/'
    ensures seq(|keys|, i requires 0 <= i < |keys| => Paths(keys)[|FixedRoutes| + i][1..]) == keys
  {
    var r := Paths(keys);
    forall i | 0 <= i < |keys|
      ensures r[|FixedRoutes| + i][1..] == keys[i]
    {
      assert r[|FixedRoutes| + i] == "/" + keys[i];
    }
  }

  /** Entry urls always hold a "/" (year/month/day/slug), so with distinct
      keys no route is added twice. */
  lemma PathsDistinct(keys: seq<string>)
    requires NoDuplicates(keys)
    requires forall i :: 0 <= i < |keys| ==> '/' in keys[i]
    ensures forall i, j :: 0 <= i < j < |Paths(keys)| ==> Paths(keys)[i] != Paths(keys)[j]
  {
    var r := Paths(keys);
    var n := |FixedRoutes|;
    forall i, j | 0 <= i < j < |r|
      ensures r[i] != r[j]
    {
      if j >= n {
        var k := keys[j - n];
        assert r[j] == "/" + k && r[j][1..] == k;
        if i >= n {
          assert r[i][1..] == keys[i - n];
        } else {
          FixedRouteHasOneSlash(i);
          SecondSlash(k);
        }
      }
    }
  }

  lemma FixedRouteHasOneSlash(i: nat)
    requires i < |FixedRoutes|
    ensures '/' !in FixedRoutes[i][1..]
  {
  }

  lemma SecondSlash(k: string)
    requires '/' in k
    ensures '/' in Route(k)[1..]
  {
    assert Route(k)[1..] == k;
  }

  /** A valid store's key order gives a list of routes without duplicates. */
  lemma StoreRoutesDistinct(st: Store)
    requires Valid(st)
    ensures forall i, j :: 0 <= i < j < |Paths(st.entryKeys)| ==> Paths(st.entryKeys)[i] != Paths(st.entryKeys)[j]
  {
    PathsDistinct(st.entryKeys);
  }

  /** Every url key of the store has its route. */
  lemma EveryEntryRouted(st: Store)
    requires Valid(st)
    ensures forall u :: u in st.entries ==> Route(u) in Paths(st.entryKeys)
  {
    forall u | u in st.entries
      ensures Route(u) in Paths(st.entryKeys)
    {
      var i :| 0 <= i < |st.entryKeys| && st.entryKeys[i] == u;
      assert Paths(st.entryKeys)[|FixedRoutes| + i] == Route(u);
    }
  }

  /** `${url.replace(/\//g, '-')}.png`: the image file of an entry. */
  function ImageName(url: string): (r: string)
    ensures '/' !in r
    ensures |r| == |url| + 4 && r[|url|..] == ".png"
    ensures forall i :: 0 <= i < |url| ==> r[i] == if url[i] == '/' then '-' else url[i]
  {
    MapChar(url, '/', '-') + ".png"
  }

  /** `a` and `b` agree everywhere, except that one may hold "/" where
      the other holds "-". */
  predicate SameUpToSlash(a: string, b: string) {
    && |a| == |b|
    && forall i :: 0 <= i < |a| ==> a[i] == b[i] || (a[i] in "/-" && b[i] in "/-")
  }

  /** Two urls share an image file exactly when they differ only by "/"
      against "-"; so "a/b" and "a-b" would overwrite each other's cover. */
  lemma ImageNameCollision(u: string, v: string)
    ensures ImageName(u) == ImageName(v) <==> SameUpToSlash(u, v)
  {
    var a, b := ImageName(u), ImageName(v);
    if a == b {
      forall i | 0 <= i < |u|
        ensures u[i] == v[i] || (u[i] in "/-" && v[i] in "/-")
      {
        assert a[i] == b[i];
      }
    }
    if SameUpToSlash(u, v) {
      forall i | 0 <= i < |a|
        ensures a[i] == b[i]
      {
        if i >= |u| {
          assert a[i] == a[|u|..][i - |u|] && b[i] == b[|u|..][i - |u|];
        }
      }
    }
  }

  /** The request that renders the cover of an entry. */
  function CoverRequest(url: string): string {
    "/cover/" + url + ".png"
  }

  /** What a run of `done` does: the images written, the requests made for
      them, and the image names present afterwards. */
  datatype Run = Run(written: seq<string>, requests: seq<string>, files: set<string>)

  /** `done(app)` over the entry keys, starting from the image names in
      `files`: an image is requested and written only when its name is not
      there yet, and a written image is there for the keys after it. */
  function DoneRun(keys: seq<string>, files: set<string>): (r: Run)
    decreases |keys|
  {
    if |keys| == 0 then Run([], [], files)
    else
      var name := ImageName(keys[0]);
      if name in files then DoneRun(keys[1..], files)
      else
        var rest := DoneRun(keys[1..], files + {name});
        Run([name] + rest.written, [CoverRequest(keys[0])] + rest.requests, rest.files)
  }

  /** Only missing images are written, each once, and afterwards the files
      are those present before plus those written. */
  lemma {:induction false} DoneRunWrites(keys: seq<string>, files: set<string>)
    ensures var r := DoneRun(keys, files);
      && |r.written| == |r.requests|
      && (forall i :: 0 <= i < |r.written| ==> r.written[i] !in files)
      && (forall i, j :: 0 <= i < j < |r.written| ==> r.written[i] != r.written[j])
      && r.files == files + (set x | x in r.written)
    decreases |keys|
  {
    if |keys| > 0 {
      var name := ImageName(keys[0]);
      if name in files {
        DoneRunWrites(keys[1..], files);
      } else {
        DoneRunWrites(keys[1..], files + {name});
        var rest := DoneRun(keys[1..], files + {name});
        var r := DoneRun(keys, files);
        assert r.written == [name] + rest.written;
        assert (set x | x in r.written) == {name} + (set x | x in rest.written);
      }
    }
  }

  /** After a run every key has its image. */
  lemma {:induction false} DoneRunCovers(keys: seq<string>, files: set<string>)
    ensures files <= DoneRun(keys, files).files
    ensures forall i :: 0 <= i < |keys| ==> ImageName(keys[i]) in DoneRun(keys, files).files
    decreases |keys|
  {
    if |keys| > 0 {
      var name := ImageName(keys[0]);
      var files' := if name in files then files else files + {name};
      DoneRunCovers(keys[1..], files');
      assert forall i :: 1 <= i < |keys| ==> keys[i] == keys[1..][i - 1];
    }
  }

  /** Each request is for the cover of a key whose image is written at the
      same position. */
  lemma {:induction false} DoneRunRequests(keys: seq<string>, files: set<string>)
    ensures var r := DoneRun(keys, files);
      |r.written| == |r.requests| &&
      forall i :: 0 <= i < |r.written| ==> exists k :: k in keys && r.written[i] == ImageName(k) && r.requests[i] == CoverRequest(k)
    decreases |keys|
  {
    if |keys| > 0 {
      var name := ImageName(keys[0]);
      var files' := if name in files then files else files + {name};
      DoneRunRequests(keys[1..], files');
      var rest := DoneRun(keys[1..], files');
      var r := DoneRun(keys, files);
      forall i | 0 <= i < |r.written|
        ensures exists k :: k in keys && r.written[i] == ImageName(k) && r.requests[i] == CoverRequest(k)
      {
        if name !in files && i == 0 {
          assert keys[0] in keys;
        } else {
          var j := if name in files then i else i - 1;
          assert r.written[i] == rest.written[j] && r.requests[i] == rest.requests[j];
          var k :| k in keys[1..] && rest.written[j] == ImageName(k) && rest.requests[j] == CoverRequest(k);
          assert k in keys;
        }
      }
    }
  }

  /** A run over files that already hold every image writes nothing. */
  lemma {:induction false} DoneRunNothingMissing(keys: seq<string>, files: set<string>)
    requires forall i :: 0 <= i < |keys| ==> ImageName(keys[i]) in files
    ensures DoneRun(keys, files) == Run([], [], files)
    decreases |keys|
  {
    if |keys| > 0 {
      assert ImageName(keys[0]) in files;
      assert forall i :: 0 <= i < |keys[1..]| ==> keys[1..][i] == keys[i + 1];
      DoneRunNothingMissing(keys[1..], files);
    }
  }

  /** A second run over the same keys writes nothing. */
  lemma DoneIdempotent(keys: seq<string>, files: set<string>)
    ensures DoneRun(keys, DoneRun(keys, files).files) == Run([], [], DoneRun(keys, files).files)
  {
    DoneRunCovers(keys, files);
    DoneRunNothingMissing(keys, DoneRun(keys, files).files);
  }

  /** `done(app)` as a loop over the keys, as the source runs it. */
  method Done(keys: seq<string>, existing: set<string>) returns (written: seq<string>, requests: seq<string>, files: set<string>)
    ensures Run(written, requests, files) == DoneRun(keys, existing)
  {
    written, requests, files := [], [], existing;
    var i := 0;
    while i < |keys|
      invariant 0 <= i <= |keys|
      invariant DoneRun(keys, existing) == Run(written + DoneRun(keys[i..], files).written, requests + DoneRun(keys[i..], files).requests, DoneRun(keys[i..], files).files)
    {
      var name := ImageName(keys[i]);
      assert keys[i..][1..] == keys[i + 1..];
      if name !in files {
        var rest := DoneRun(keys[i + 1..], files + {name});
        assert written + ([name] + rest.written) == (written + [name]) + rest.written;
        assert requests + ([CoverRequest(keys[i])] + rest.requests) == (requests + [CoverRequest(keys[i])]) + rest.requests;
        written := written + [name];
        requests := requests + [CoverRequest(keys[i])];
        files := files + {name};
      }
      i := i + 1;
    }
    assert keys[i..] == [];
    assert written + [] == written && requests + [] == requests;
  }
}

/** The arithmetic of `main` that builds one generation of the tab pool:
    the thread URLs (msg.py:497-500), the early stops (msg.py:516-524), the
    tab clamp (msg.py:528-529), one tab per URL and copy (msg.py:568-572) and
    the admission of the tabs whose initialisation succeeded (msg.py:575-593).
    Pages are identified by their position in the creation order. */
module Pool {
  import opened Text
  import opened Wrappers
  import Corpus

  /** `[u.strip() for u in args.thread_url.split(',') if u.strip()]`. */
  function ThreadUrls(arg: string): (urls: seq<string>)
    ensures forall k :: 0 <= k < |urls| ==> urls[k] != [] && IsStripped(urls[k]) && ',' !in urls[k]
  {
    var pieces := SplitOn(arg, ',');
    StripNonEmptyInfix(pieces, ',');
    StripNonEmpty(pieces)
  }

  /** Stripping does not add characters: a character absent from every piece
      is absent from every kept piece. */
  lemma {:induction false} StripNonEmptyInfix(pieces: seq<string>, c: char)
    requires forall k :: 0 <= k < |pieces| ==> c !in pieces[k]
    ensures forall k :: 0 <= k < |StripNonEmpty(pieces)| ==> c !in StripNonEmpty(pieces)[k]
  {
    if pieces != [] {
      StripNonEmptyInfix(pieces[1..], c);
    }
  }

  /** URLs that are already clean come back from their comma-separated list,
      in order. */
  lemma ThreadUrlsRoundTrip(urls: seq<string>)
    requires |urls| >= 1
    requires forall k :: 0 <= k < |urls| ==> urls[k] != [] && IsStripped(urls[k]) && ',' !in urls[k]
    ensures ThreadUrls(JoinWith(urls, ',')) == urls
  {
    SplitJoin(urls, ',');
    StripNonEmptyOfClean(urls);
  }

  /** Blank entries, such as the one a trailing comma leaves, are dropped. */
  lemma ThreadUrlsDropsBlank(urls: seq<string>)
    requires |urls| >= 1
    requires forall k :: 0 <= k < |urls| ==> urls[k] != [] && IsStripped(urls[k]) && ',' !in urls[k]
    ensures ThreadUrls(JoinWith(urls + [" "], ',')) == urls
  {
    var all := urls + [" "];
    assert forall k :: 0 <= k < |all| ==> ',' !in all[k] by {
      assert forall k :: 0 <= k < |urls| ==> all[k] == urls[k];
    }
    SplitJoin(all, ',');
    StripNonEmptySnocBlank(urls, " ");
    StripNonEmptyOfClean(urls);
  }

  lemma {:induction false} StripNonEmptySnocBlank(ps: seq<string>, blank: string)
    requires AllSpace(blank)
    ensures StripNonEmpty(ps + [blank]) == StripNonEmpty(ps)
  {
    if ps == [] {
      assert ps + [blank] == [blank];
      assert [blank][1..] == [];
    } else {
      StripNonEmptySnocBlank(ps[1..], blank);
      assert (ps + [blank])[1..] == ps[1..] + [blank];
    }
  }

  /** Largest number of tabs per URL. */
  const MaxTabs: int := 5

  /** `min(max(args.tabs, 1), 5)`: the requested number when it lies in
      `[1, 5]`, otherwise the nearer bound. */
  function ClampTabs(requested: int): (tabs: int)
    ensures 1 <= tabs <= MaxTabs
    ensures 1 <= requested <= MaxTabs ==> tabs == requested
    ensures requested < 1 ==> tabs == 1
    ensures requested > MaxTabs ==> tabs == MaxTabs
  {
    var atLeastOne := if requested > 1 then requested else 1;
    if atLeastOne < MaxTabs then atLeastOne else MaxTabs
  }

  /** Clamping is idempotent and keeps the order of requests. */
  lemma ClampTabsStable(a: int, b: int)
    ensures ClampTabs(ClampTabs(a)) == ClampTabs(a)
    ensures a <= b ==> ClampTabs(a) <= ClampTabs(b)
  {
  }

  /** Why `main` stops before opening any tab. */
  datatype StartError =
    | NoThreadUrls            // msg.py:498-500
    | UnparsableMessages      // msg.py:518-520
    | NoMessages              // msg.py:522-524

  /** What a run is started with. */
  datatype Plan = Plan(urls: seq<string>, messages: seq<string>, tabs: int, totalTabs: int)

  /** The checks and sizes of msg.py:497-529, given the `--thread-url`
      argument, the outcome of `parse_messages` and the requested number of
      tabs (login is not part of this model). */
  function Setup(threadArg: string, parsed: Result<seq<string>, Corpus.ParseError>, requestedTabs: int): (r: Result<Plan, StartError>)
    ensures r.Ok? <==> ThreadUrls(threadArg) != [] && parsed.Ok? && parsed.value != []
    ensures r.Err? ==> r.error == (if ThreadUrls(threadArg) == [] then NoThreadUrls
                                   else if parsed.Err? then UnparsableMessages else NoMessages)
    ensures r.Ok? ==>
      && r.value.urls == ThreadUrls(threadArg) && r.value.messages == parsed.value
      && 1 <= r.value.tabs <= MaxTabs && r.value.tabs == ClampTabs(requestedTabs)
      && r.value.totalTabs == |r.value.urls| * r.value.tabs
  {
    var urls := ThreadUrls(threadArg);
    if urls == [] then Err(NoThreadUrls)
    else match parsed
      case Err(_) => Err(UnparsableMessages)
      case Ok(msgs) =>
        if msgs == [] then Err(NoMessages)
        else
          var tabs := ClampTabs(requestedTabs);
          Ok(Plan(urls, msgs, tabs, |urls| * tabs))
  }

  /** The URL of each page, in creation order: `tabs` pages on each URL, URL
      by URL. */
  function PagesFor(urls: seq<string>, tabs: nat): (pageUrls: seq<string>)
    ensures |pageUrls| == |urls| * tabs
  {
    if urls == [] then []
    else
      MulStep(|urls| - 1, tabs);
      PagesFor(urls[..|urls| - 1], tabs) + seq(tabs, _ => urls[|urls| - 1])
  }

  /** Position of the `i`-th page on the `u`-th URL. */
  function Slot(u: nat, i: nat, tabs: nat): nat {
    u * tabs + i
  }

  lemma MulStep(u: nat, t: nat)
    ensures (u + 1) * t == u * t + t
  {
  }

  lemma {:induction false} MulMono(u: nat, n: nat, t: nat)
    requires u < n
    ensures u * t + t <= n * t
    decreases n - u
  {
    MulStep(u, t);
    if u + 1 < n {
      MulMono(u + 1, n, t);
    }
  }

  /** Page `Slot(u, i, tabs)`, for `i < tabs`, is on URL `u`. */
  lemma {:induction false} PagesForIndex(urls: seq<string>, tabs: nat)
    ensures forall u, i :: 0 <= u < |urls| && 0 <= i < tabs ==>
      Slot(u, i, tabs) < |PagesFor(urls, tabs)| && PagesFor(urls, tabs)[Slot(u, i, tabs)] == urls[u]
  {
    if urls != [] {
      var last := |urls| - 1;
      var pre := urls[..last];
      PagesForIndex(pre, tabs);
      forall u, i | 0 <= u < |urls| && 0 <= i < tabs
        ensures Slot(u, i, tabs) < |PagesFor(urls, tabs)| && PagesFor(urls, tabs)[Slot(u, i, tabs)] == urls[u]
      {
        if u < last {
          MulMono(u, last, tabs);
          assert pre[u] == urls[u];
        }
      }
    }
  }

  /** The nested loop of msg.py:568-572. */
  method OpenPages(urls: seq<string>, tabs: nat) returns (pageUrls: seq<string>)
    ensures pageUrls == PagesFor(urls, tabs)
  {
    pageUrls := [];
    var u := 0;
    while u < |urls|
      invariant 0 <= u <= |urls|
      invariant pageUrls == PagesFor(urls[..u], tabs)
    {
      var i := 0;
      while i < tabs
        invariant 0 <= i <= tabs
        invariant pageUrls == PagesFor(urls[..u], tabs) + seq(i, _ => urls[u])
      {
        pageUrls := pageUrls + [urls[u]];
        i := i + 1;
      }
      assert urls[..u + 1][..u] == urls[..u];
      u := u + 1;
    }
    assert urls[..u] == urls;
  }

  /** What `asyncio.gather(..., return_exceptions=True)` gives for one
      `init_page` task: its boolean, or the exception it raised. */
  datatype InitResult = Returned(ok: bool) | Raised

  /** A page is kept unless its task raised or returned false (msg.py:581). */
  predicate Ready(r: InitResult) {
    r == Returned(true)
  }

  /** Positions of the kept pages, in creation order. */
  function Admitted(results: seq<InitResult>): (pages: seq<nat>)
    ensures |pages| <= |results|
  {
    if results == [] then []
    else
      var last := |results| - 1;
      Admitted(results[..last]) + (if Ready(results[last]) then [last] else [])
  }

  /** Every admitted position is a ready one. */
  lemma {:induction false} AdmittedSound(results: seq<InitResult>)
    ensures forall j :: 0 <= j < |Admitted(results)| ==>
      Admitted(results)[j] < |results| && Ready(results[Admitted(results)[j]])
  {
    if results != [] {
      var last := |results| - 1;
      AdmittedSound(results[..last]);
      assert forall k :: 0 <= k < last ==> results[..last][k] == results[k];
    }
  }

  /** Every ready position is admitted. */
  lemma {:induction false} AdmittedComplete(results: seq<InitResult>)
    ensures forall k :: 0 <= k < |results| && Ready(results[k]) ==> k in Admitted(results)
  {
    if results != [] {
      var last := |results| - 1;
      AdmittedComplete(results[..last]);
      assert forall k :: 0 <= k < last ==> results[..last][k] == results[k];
    }
  }

  /** The admitted positions keep the creation order, each once. */
  lemma {:induction false} AdmittedIncreasing(results: seq<InitResult>)
    ensures forall j :: 0 <= j < |Admitted(results)| ==> Admitted(results)[j] < |results|
    ensures forall j, j' :: 0 <= j < j' < |Admitted(results)| ==> Admitted(results)[j] < Admitted(results)[j']
  {
    if results != [] {
      AdmittedIncreasing(results[..|results| - 1]);
    }
  }

  /** Number of ready results. */
  function CountReady(results: seq<InitResult>): nat {
    if results == [] then 0
    else CountReady(results[..|results| - 1]) + (if Ready(results[|results| - 1]) then 1 else 0)
  }

  /** One page is kept per ready result. */
  lemma {:induction false} AdmittedCount(results: seq<InitResult>)
    ensures |Admitted(results)| == CountReady(results)
  {
    if results != [] {
      AdmittedCount(results[..|results| - 1]);
    }
  }

  /** The filtering loop of msg.py:579-589. */
  method Admit(results: seq<InitResult>) returns (pages: seq<nat>)
    ensures pages == Admitted(results)
  {
    pages := [];
    var idx := 0;
    while idx < |results|
      invariant 0 <= idx <= |results|
      invariant pages == Admitted(results[..idx])
    {
      assert results[..idx + 1][..idx] == results[..idx];
      if Ready(results[idx]) {
        pages := pages + [idx];
      }
      idx := idx + 1;
    }
    assert results[..idx] == results;
  }

  /** What one generation of the pool comes to: the run stops when no tab
      could be initialised (msg.py:591-593); otherwise one sender is started
      per kept page, on that page's URL. */
  datatype Generation = NoTabsReady | Senders(urls: seq<string>)

  /** One generation: open the pages, keep the initialised ones, and stop if
      none is left. `results` holds the outcome of `init_page` for each page. */
  method StartGeneration(urls: seq<string>, tabs: nat, results: seq<InitResult>) returns (g: Generation)
    requires |results| == |urls| * tabs
    ensures g == NoTabsReady <==> Admitted(results) == []
    ensures g.Senders? ==> |g.urls| == |Admitted(results)|
    ensures g.Senders? ==> forall j :: 0 <= j < |g.urls| ==>
      Admitted(results)[j] < |results| && g.urls[j] == PagesFor(urls, tabs)[Admitted(results)[j]]
  {
    var pageUrls := OpenPages(urls, tabs);
    var pages := Admit(results);
    PagesForIndex(urls, tabs);
    AdmittedSound(results);
    if pages == [] {
      return NoTabsReady;
    }
    // One `sender` task per kept page (msg.py:596).
    return Senders(seq(|pages|, j requires 0 <= j < |pages| => pageUrls[pages[j]]));
  }

  /** Two URLs with two tabs each where the second page fails to initialise:
      three senders start, one on the first URL and two on the second. */
  lemma OneFailureOfFour(a: string, b: string)
    ensures var rs := [Returned(true), Raised, Returned(true), Returned(true)];
      && Admitted(rs) == [0, 2, 3] && CountReady(rs) == 3
      && PagesFor([a, b], 2) == [a, a, b, b]
  {
    var r1 := [Returned(true)];
    var r2 := [Returned(true), Raised];
    var r3 := [Returned(true), Raised, Returned(true)];
    var r4 := [Returned(true), Raised, Returned(true), Returned(true)];
    assert r1[..0] == [] && r2[..1] == r1 && r3[..2] == r2 && r4[..3] == r3;
    assert Admitted(r1) == [0];
    assert Admitted(r2) == [0];
    assert Admitted(r3) == [0, 2];
    assert Admitted(r4) == [0, 2, 3];
    AdmittedCount(r4);
    assert [a, b][..1] == [a] && [a][..0] == [];
    assert PagesFor([a], 2) == [a, a];
  }

  /** A task that returned false is dropped just like one that raised. */
  lemma FalseIsDropped()
    ensures Admitted([Returned(false), Raised]) == []
  {
    var r1 := [Returned(false)];
    assert r1[..0] == [] && (r1 + [Raised])[..1] == r1;
  }
}

/**
 * The list of repositories to synchronise (`get_repositories_list`,
 * rkd_cooperative/tasks.py): a comma-separated string of `url` or
 * `url@@ref` entries, collected into an insertion-ordered dictionary from
 * URL to ref, modelled as a sequence of pairs.
 */
module Repositories {
  import opened Wrappers
  import opened Strings

  /** One entry of the dictionary: a git URL and the ref to check out. */
  datatype Repository = Repository(url: string, ref: string)

  const DefaultRef := "master"

  /** `parts = repo.split('@@')`: the URL and, when given, the ref. */
  function ParseEntry(entry: string): (r: Repository)
    ensures StartsWith(entry, r.url) && !Contains(r.url, "@@")
    ensures r.ref == DefaultRef || (Contains(entry, "@@") && !Contains(r.ref, "@@"))
  {
    var parts := Split(entry, "@@");
    SplitPiecesAvoidSeparator(entry, "@@");
    FirstMatchFindsOccurrence(entry, "@@");
    assert parts[0] in parts;
    assert |parts| >= 2 ==> parts[1] in parts;
    Repository(parts[0], if |parts| >= 2 then parts[1] else DefaultRef)
  }

  /** The entries of the argument, in order. */
  function ParseAll(entries: seq<string>): (repos: seq<Repository>)
    ensures |repos| == |entries|
    ensures forall i :: 0 <= i < |entries| ==> repos[i] == ParseEntry(entries[i])
  {
    seq(|entries|, i requires 0 <= i < |entries| => ParseEntry(entries[i]))
  }

  /** Position of the first pair whose URL is `url`, or `|d|`. */
  function UrlIndex(d: seq<Repository>, url: string): (i: nat)
    ensures i <= |d|
    ensures i < |d| ==> d[i].url == url
    ensures forall j :: 0 <= j < i ==> d[j].url != url
  {
    if d == [] || d[0].url == url then 0 else 1 + UrlIndex(d[1..], url)
  }

  /** `d[e.url] = e.ref`: an existing key keeps its place and takes the new ref. */
  function Assign(d: seq<Repository>, e: Repository): seq<Repository> {
    var i := UrlIndex(d, e.url);
    if i < |d| then d[i := e] else d + [e]
  }

  /** The dictionary after assigning the entries one after the other, starting from `{}`. */
  function AssignAll(entries: seq<Repository>): (d: seq<Repository>)
    ensures |d| <= |entries| && (entries != [] ==> d != [])
    ensures forall i :: 0 <= i < |d| ==> d[i] in entries
  {
    if entries == [] then []
    else
      var prefix, e := entries[..|entries| - 1], entries[|entries| - 1];
      var d := AssignAll(prefix);
      assert forall x :: x in prefix ==> x in entries;
      Assign(d, e)
  }

  /** The result of `get_repositories_list`; `None` is a missing argument. */
  function RepositoriesOf(raw: Option<string>): (repos: seq<Repository>)
    ensures raw.None? <==> repos == []
    ensures DistinctUrls(repos)
  {
    match raw
    case None => []
    case Some(s) =>
      AssignAllIsDictionary(ParseAll(Split(s, ",")));
      AssignAll(ParseAll(Split(s, ",")))
  }

  /**
   * `get_repositories_list`: a missing argument (`MissingInputException`)
   * gives no repositories; otherwise every entry is assigned in turn.
   */
  method GetRepositoriesList(raw: Option<string>) returns (repos: seq<Repository>)
    ensures repos == RepositoriesOf(raw)
  {
    if raw.None? {
      return [];
    }
    var entries := Split(raw.value, ",");
    ghost var parsed := ParseAll(entries);
    repos := [];
    for k := 0 to |entries|
      invariant repos == AssignAll(parsed[..k])
    {
      assert parsed[..k + 1][..k] == parsed[..k];
      repos := Assign(repos, ParseEntry(entries[k]));
    }
    assert parsed[..|entries|] == parsed;
  }

  // ---------------------------------------------------------------------
  // What the dictionary holds

  ghost predicate DistinctUrls(d: seq<Repository>) {
    forall i, j :: 0 <= i < j < |d| ==> d[i].url != d[j].url
  }

  /** `d.get(url)` */
  function Lookup(d: seq<Repository>, url: string): Option<string> {
    var i := UrlIndex(d, url);
    if i < |d| then Some(d[i].ref) else None
  }

  /** The ref of the last entry that names `url`: the one a later assignment leaves. */
  function LastRef(entries: seq<Repository>, url: string): Option<string> {
    if entries == [] then None
    else if entries[|entries| - 1].url == url then Some(entries[|entries| - 1].ref)
    else LastRef(entries[..|entries| - 1], url)
  }

  /** `LastRef` is `None` exactly when no entry names the URL. */
  lemma {:induction false} LastRefNone(entries: seq<Repository>, url: string)
    ensures LastRef(entries, url) == None <==> forall k :: 0 <= k < |entries| ==> entries[k].url != url
  {
    if entries != [] {
      var n := |entries| - 1;
      LastRefNone(entries[..n], url);
      assert forall k :: 0 <= k < n ==> entries[..n][k] == entries[k];
    }
  }

  /** The ref `LastRef` gives is that of the last entry naming the URL. */
  lemma {:induction false} LastRefIsLastWrite(entries: seq<Repository>, url: string, k: nat)
    requires k < |entries| && entries[k].url == url
    requires forall k' :: k < k' < |entries| ==> entries[k'].url != url
    ensures LastRef(entries, url) == Some(entries[k].ref)
  {
    var n := |entries| - 1;
    if k < n {
      LastRefIsLastWrite(entries[..n], url, k);
    }
  }

  lemma UrlIndexIs(d: seq<Repository>, url: string, k: nat)
    requires k <= |d|
    requires k < |d| ==> d[k].url == url
    requires forall j :: 0 <= j < k ==> d[j].url != url
    ensures UrlIndex(d, url) == k
  {
  }

  /** Assignment keeps URLs distinct and changes the value of one key only. */
  lemma {:induction false} AssignUpdatesOneKey(d: seq<Repository>, e: Repository, url: string)
    requires DistinctUrls(d)
    ensures DistinctUrls(Assign(d, e))
    ensures Lookup(Assign(d, e), url) == if url == e.url then Some(e.ref) else Lookup(d, url)
  {
    var i := UrlIndex(d, e.url);
    var d' := Assign(d, e);
    if i < |d| {
      assert forall j :: 0 <= j < |d| ==> d'[j].url == d[j].url;
      if url == e.url {
        UrlIndexIs(d', url, i);
      } else {
        var k := UrlIndex(d, url);
        UrlIndexIs(d', url, k);
      }
    } else {
      if url == e.url {
        UrlIndexIs(d', url, |d|);
      } else {
        var k := UrlIndex(d, url);
        if k < |d| {
          UrlIndexIs(d', url, k);
        } else {
          UrlIndexIs(d', url, |d| + 1);
        }
      }
    }
  }

  /** The first position of a URL among the entries does not move when an entry is added at the end. */
  lemma UrlIndexOfExtension(entries: seq<Repository>, e: Repository, url: string)
    ensures UrlIndex(entries + [e], url) ==
      if UrlIndex(entries, url) < |entries| then UrlIndex(entries, url)
      else if e.url == url then |entries| else |entries| + 1
  {
    var s := entries + [e];
    var k := UrlIndex(entries, url);
    if k < |entries| {
      UrlIndexIs(s, url, k);
    } else if e.url == url {
      UrlIndexIs(s, url, |entries|);
    } else {
      UrlIndexIs(s, url, |entries| + 1);
    }
  }

  /**
   * The dictionary built from the entries has one pair per distinct URL,
   * and each URL maps to the ref of its LAST entry (a later ref overwrites
   * an earlier one).
   */
  lemma {:induction false} AssignAllIsDictionary(entries: seq<Repository>)
    ensures DistinctUrls(AssignAll(entries))
    ensures forall url :: Lookup(AssignAll(entries), url) == LastRef(entries, url)
  {
    if entries != [] {
      var n := |entries| - 1;
      var prefix, e := entries[..n], entries[n];
      AssignAllIsDictionary(prefix);
      var d := AssignAll(prefix);
      forall url
        ensures Lookup(Assign(d, e), url) == LastRef(entries, url)
      {
        AssignUpdatesOneKey(d, e, url);
      }
      AssignUpdatesOneKey(d, e, e.url);
    }
  }

  /**
   * Every pair of `d` has its URL among the entries, and the pairs are
   * ordered by the FIRST entry naming their URL.
   */
  ghost predicate OrderedByFirstEntry(entries: seq<Repository>, d: seq<Repository>) {
    (forall i :: 0 <= i < |d| ==> UrlIndex(entries, d[i].url) < |entries|) &&
    (forall i, j :: 0 <= i < j < |d| ==> UrlIndex(entries, d[i].url) < UrlIndex(entries, d[j].url))
  }

  /**
   * The pairs of the dictionary are ordered by the first entry of their
   * URL: re-assigning a key does not move it.
   */
  lemma {:induction false} AssignAllKeepsFirstOrder(entries: seq<Repository>)
    ensures OrderedByFirstEntry(entries, AssignAll(entries))
  {
    if entries != [] {
      var n := |entries| - 1;
      var prefix, e := entries[..n], entries[n];
      assert entries == prefix + [e];
      AssignAllKeepsFirstOrder(prefix);
      if UrlIndex(AssignAll(prefix), e.url) < |AssignAll(prefix)| {
        OrderAfterExistingKey(prefix, e, AssignAll(prefix));
      } else {
        NewKeyFirstAtEnd(prefix, e);
        OrderAfterNewKey(prefix, e, AssignAll(prefix));
      }
    }
  }

  /** An entry whose URL is already a key leaves the order as it was. */
  lemma OrderAfterExistingKey(prefix: seq<Repository>, e: Repository, d: seq<Repository>)
    requires OrderedByFirstEntry(prefix, d)
    requires UrlIndex(d, e.url) < |d|
    ensures OrderedByFirstEntry(prefix + [e], Assign(d, e))
  {
    forall k | 0 <= k < |d|
      ensures UrlIndex(prefix + [e], d[k].url) == UrlIndex(prefix, d[k].url)
    {
      UrlIndexOfExtension(prefix, e, d[k].url);
    }
    AssignKeepsKeys(d, e);
  }

  /** An entry with a new URL is appended, after every key already present. */
  lemma OrderAfterNewKey(prefix: seq<Repository>, e: Repository, d: seq<Repository>)
    requires OrderedByFirstEntry(prefix, d)
    requires UrlIndex(d, e.url) == |d|
    requires UrlIndex(prefix + [e], e.url) == |prefix|
    ensures OrderedByFirstEntry(prefix + [e], Assign(d, e))
  {
    var s, d' := prefix + [e], d + [e];
    assert Assign(d, e) == d';
    forall k | 0 <= k < |d'|
      ensures UrlIndex(s, d'[k].url) == if k < |d| then UrlIndex(prefix, d[k].url) else |prefix|
    {
      if k < |d| {
        assert d'[k] == d[k];
        UrlIndexOfExtension(prefix, e, d[k].url);
      }
    }
    forall i, j | 0 <= i < j < |d'|
      ensures UrlIndex(s, d'[i].url) < UrlIndex(s, d'[j].url)
    {
    }
  }

  /** Re-assigning a present key leaves every key in its place. */
  lemma AssignKeepsKeys(d: seq<Repository>, e: Repository)
    requires UrlIndex(d, e.url) < |d|
    ensures |Assign(d, e)| == |d|
    ensures forall k :: 0 <= k < |d| ==> Assign(d, e)[k].url == d[k].url
  {
  }

  /** No earlier entry names a key the dictionary lacks. */
  lemma {:induction false} NewKeyFirstAtEnd(prefix: seq<Repository>, e: Repository)
    requires UrlIndex(AssignAll(prefix), e.url) == |AssignAll(prefix)|
    ensures UrlIndex(prefix + [e], e.url) == |prefix|
  {
    AssignAllIsDictionary(prefix);
    assert LastRef(prefix, e.url) == Lookup(AssignAll(prefix), e.url) == None;
    LastRefNone(prefix, e.url);
    UrlIndexIs(prefix, e.url, |prefix|);
    UrlIndexOfExtension(prefix, e, e.url);
  }

  /** An entry without `@@` maps its whole text to `master`, and only such an entry keeps its whole text as URL. */
  lemma {:induction false} EntryWithoutRef(entry: string)
    ensures ParseEntry(entry).url == entry <==> !Contains(entry, "@@")
    ensures !Contains(entry, "@@") ==> ParseEntry(entry) == Repository(entry, DefaultRef)
  {
    FirstMatchFindsOccurrence(entry, "@@");
    if !Contains(entry, "@@") {
      SplitWithout(entry, "@@");
    }
  }

  /**
   * `url@@ref` maps `url` to `ref` when `url` holds no `@@` and does not
   * end in `@` (an `@` there would join the separator), and `ref` holds no
   * `@@`: `a@@b@` gives `('a', 'b@')`.
   */
  lemma {:induction false} EntryWithRef(url: string, ref: string)
    requires !Contains(url + "@", "@@") && !Contains(ref, "@@")
    ensures ParseEntry(url + "@@" + ref) == Repository(url, ref)
  {
    assert "@@"[..1] == "@";
    SplitAfterPrefix(url, "@@", ref);
    SplitWithout(ref, "@@");
  }

  /**
   * More `@@` segments after `url@@ref` are dropped: the second segment is
   * the ref. Here `ref` may not end in `@` either, for the same reason.
   */
  lemma {:induction false} EntryWithRefAndTail(url: string, ref: string, tail: string)
    requires !Contains(url + "@", "@@") && !Contains(ref + "@", "@@")
    ensures ParseEntry(url + "@@" + ref + "@@" + tail) == Repository(url, ref)
  {
    assert "@@"[..1] == "@";
    assert url + "@@" + ref + "@@" + tail == url + "@@" + (ref + "@@" + tail);
    SplitAfterPrefix(url, "@@", ref + "@@" + tail);
    SplitAfterPrefix(ref, "@@", tail);
  }

  /**
   * For every entry holding `@@`, the URL is the text before the first
   * `@@` and the ref the text after it, up to the next `@@`.
   */
  lemma {:induction false} ParseEntryAtFirstSeparator(entry: string)
    requires Contains(entry, "@@")
    ensures var n := FirstMatch(entry, "@@"); var rest := entry[n + 2..];
      ParseEntry(entry) == Repository(entry[..n], rest[..FirstMatch(rest, "@@")])
  {
    var n := FirstMatch(entry, "@@");
    FirstMatchFindsOccurrence(entry, "@@");
    var rest := entry[n + 2..];
    assert Split(entry, "@@") == [entry[..n]] + Split(rest, "@@");
    FirstPiece(rest, "@@");
  }

  /** Every entry holding `@@` starts with `url@@ref`. */
  lemma {:induction false} ParseEntryRefFollowsUrl(entry: string)
    requires Contains(entry, "@@")
    ensures StartsWith(entry, ParseEntry(entry).url + "@@" + ParseEntry(entry).ref)
  {
    ParseEntryAtFirstSeparator(entry);
    var n := FirstMatch(entry, "@@");
    var url, rest := entry[..n], entry[n + 2..];
    var ref := rest[..FirstMatch(rest, "@@")];
    FirstMatchFindsOccurrence(entry, "@@");
    CutAtMatch(entry, "@@", n);
    assert StartsWith(rest, ref);
    StartsWithAfter(url + "@@", rest, ref);
    assert url + "@@" + ref == (url + "@@") + ref;
  }

  /** An empty argument is one empty entry: `''.split(',') == ['']`, so `''` maps to `master`. */
  lemma {:induction false} EmptyArgument()
    ensures RepositoriesOf(Some("")) == [Repository("", DefaultRef)]
  {
    SplitWithout("", ",");
    SplitWithout("", "@@");
    assert ParseAll([""]) == [Repository("", DefaultRef)];
    assert AssignAll([Repository("", DefaultRef)]) == Assign([], Repository("", DefaultRef));
  }
}

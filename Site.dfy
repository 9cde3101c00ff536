/** The three page-level helpers that decide whether the script runs and whose posts are the
    viewer's own: `getSite` (content/index.js:28-30), `hasSite` (32-37) and the pattern
    `getUserId` applies to the cookie (39-42). The host name and the cookie are parameters. */
module Site {
  import opened Wrappers
  import opened Text

  /** The sub-sites the script is enabled on. */
  const Sites: seq<string> := ["www", "ask", "metatalk", "fanfare", "projects", "music", "podcast"]

  /** `host.split('.')[0]`: the first dot-separated label of the host name. */
  function GetSite(host: string): (site: string)
    ensures IsFirstPart(host, '.', site)
  {
    FirstPartOfSplit(host, '.');
    Split(host, '.')[0]
  }

  /** Membership in the fixed list of sub-sites. */
  function HasSite(site: string): (b: bool)
    ensures b <==> exists k :: 0 <= k < |Sites| && Sites[k] == site
  {
    site in Sites
  }

  /** The first label of `host` is `name` exactly when `host` is `name` itself or starts
      with `name` followed by a dot. */
  lemma FirstLabelIs(host: string, name: string)
    requires '.' !in name
    ensures GetSite(host) == name <==> host == name || name + "." <= host
  {
    var site := GetSite(host);
    if host == name || name + "." <= host {
      assert IsFirstPart(host, '.', name);
      FirstPartUnique(host, '.', site, name);
    }
    if site == name && host != name {
      assert host[..|site| + 1] == site + ".";
    }
  }

  lemma SitesHaveNoDot(k: nat)
    requires k < |Sites|
    ensures '.' !in Sites[k]
  {
  }

  /** The script runs on a host exactly when the host is one of the sub-site names, or starts
      with one of them followed by a dot. */
  lemma HasSiteOfHost(host: string)
    ensures HasSite(GetSite(host)) <==>
            exists k :: 0 <= k < |Sites| && (host == Sites[k] || Sites[k] + "." <= host)
  {
    forall k | 0 <= k < |Sites|
      ensures GetSite(host) == Sites[k] <==> host == Sites[k] || Sites[k] + "." <= host
    {
      SitesHaveNoDot(k);
      FirstLabelIs(host, Sites[k]);
    }
  }

  // ---------------------------------------------------------------------------------------------
  // getUserId: cookie.match(/USER_ID=(\d+);/)[1]
  // ---------------------------------------------------------------------------------------------

  const Key: string := "USER_ID="

  /** The pattern matches the cookie at position `i` with a digit group of length `n`. */
  predicate MatchesAt(cookie: string, i: nat, n: nat) {
    && i + |Key| + n < |cookie|
    && cookie[i..i + |Key|] == Key
    && n >= 1
    && AllDigits(cookie[i + |Key|..i + |Key| + n])
    && cookie[i + |Key| + n] == ';'
  }

  /** The captured group of a match at `i` of length `n`. */
  function Group(cookie: string, i: nat, n: nat): string
    requires MatchesAt(cookie, i, n)
  {
    cookie[i + |Key|..i + |Key| + n]
  }

  /** At a given position the pattern can match with one group length only: the greedy
      `\d+` must stop exactly at the `;`, so no backtracking alternative exists. */
  lemma MatchLengthUnique(cookie: string, i: nat, n: nat)
    requires MatchesAt(cookie, i, n)
    ensures n == DigitRun(cookie[i + |Key|..])
  {
    var t := cookie[i + |Key|..];
    var r := DigitRun(t);
    assert t[..n] == cookie[i + |Key|..i + |Key| + n];
    if n != r {
      assert false;
    }
  }

  /** Trying the pattern at one position. */
  function MatchAt(cookie: string, i: nat): (g: Option<string>)
    requires i <= |cookie|
    ensures g.Some? ==> MatchesAt(cookie, i, |g.value|) && g.value == Group(cookie, i, |g.value|)
    ensures g.None? ==> forall n :: !MatchesAt(cookie, i, n)
  {
    if i + |Key| <= |cookie| && cookie[i..i + |Key|] == Key then
      var n := DigitRun(cookie[i + |Key|..]);
      if n >= 1 && i + |Key| + n < |cookie| && cookie[i + |Key| + n] == ';' then
        assert cookie[i + |Key|..][..n] == cookie[i + |Key|..i + |Key| + n];
        Some(cookie[i + |Key|..i + |Key| + n])
      else
        assert forall m :: MatchesAt(cookie, i, m) ==> m == n by {
          forall m | MatchesAt(cookie, i, m) ensures m == n { MatchLengthUnique(cookie, i, m); }
        }
        None
    else
      None
  }

  /** The position of the leftmost match at or after `from`. */
  function FindMatch(cookie: string, from: nat): (pos: Option<nat>)
    requires from <= |cookie|
    ensures pos.Some? ==> from <= pos.value <= |cookie| && MatchAt(cookie, pos.value).Some?
    ensures pos.Some? ==> forall j, n :: from <= j < pos.value ==> !MatchesAt(cookie, j, n)
    ensures pos.None? ==> forall i, n :: from <= i ==> !MatchesAt(cookie, i, n)
    decreases |cookie| - from
  {
    if from == |cookie| then None
    else if MatchAt(cookie, from).Some? then Some(from)
    else FindMatch(cookie, from + 1)
  }

  /** The match at `i` with group `d` is the leftmost one starting at or after `from`. */
  ghost predicate FirstMatch(cookie: string, from: nat, i: nat, d: string) {
    && MatchesAt(cookie, i, |d|)
    && d == Group(cookie, i, |d|)
    && forall j, n :: from <= j < i ==> !MatchesAt(cookie, j, n)
  }

  /** `getUserId`: the digits of the leftmost `USER_ID=<digits>;` in the cookie. `None` is
      the case where `match` returns `null` and reading `[1]` of it throws. */
  function GetUserId(cookie: string): (id: Option<string>)
    ensures id.Some? ==> |id.value| >= 1 && AllDigits(id.value)
    ensures id.Some? ==> exists i :: FirstMatch(cookie, 0, i, id.value)
    ensures id.None? <==> forall i, n :: !MatchesAt(cookie, i, n)
  {
    match FindMatch(cookie, 0)
    case Some(i) =>
      var d := MatchAt(cookie, i).value;
      assert FirstMatch(cookie, 0, i, d);
      Some(d)
    case None => None
  }
}

/**
 * GitLab URL helper: turns the remote URL of a git repository into the
 * GitLab REST API (v4) endpoints and the web pages of that project.
 *
 * The source works on JavaScript strings and returns `null` when an input is
 * missing or invalid; here every result that may be `null` is an `Option`.
 * The validators the source imports from other files are not part of this
 * model: they are the fields of `Env`, about which nothing is assumed.
 */
module GitLabURLHelper {
  import opened Wrappers
  import opened Strings

  /** A label or an assignee: an object with an `id` and a `name`. */
  datatype IdName = IdName(id: int, name: string)

  /**
   * The collaborators of the helper. `isValidVariable` is applied to values of
   * three JavaScript types, so it appears once per type; `toStr` is the
   * conversion JavaScript performs when a number is concatenated to a string.
   */
  datatype Env = Env(
    isValidURL: string -> bool,
    isValidString: string -> bool,
    isValidNumber: int -> bool,
    isValidLabelList: seq<IdName> -> bool,
    isValidIDName: IdName -> bool,
    isGitHubURL: string -> bool,
    toStr: int -> string)

  /** The three capture groups of the self-hosting pattern. */
  datatype Location = Location(domain: string, namespace: string, project: string)

  /** The placeholder token that `postFixToken` treats as absent. */
  const TokenPlaceholder := "Tokens that have not yet been entered"

  /** `isValidVariable(token)`; an absent token is never a valid variable. */
  predicate IsValidToken(env: Env, token: Option<string>)
  {
    token.Some? && env.isValidString(token.value)
  }

  /** `isValidVariable(number)`; an absent number is never a valid variable. */
  predicate IsValidNumber(env: Env, number: Option<int>)
  {
    number.Some? && env.isValidNumber(number.value)
  }

  // ---------------------------------------------------------------------------
  // The self-hosting pattern  ^(https?://\S+)/([^/\s]+)/([^/\s]+)/?$
  // ---------------------------------------------------------------------------

  /** Group 1: `http://` or `https://` followed by at least one character, no whitespace. */
  predicate IsInstanceURL(d: string)
  {
    NoSpace(d)
    && ((|d| > 7 && d[..7] == "http://") || (|d| > 8 && d[..8] == "https://"))
  }

  /** Groups 2 and 3: `[^/\s]+`. */
  predicate IsSegment(s: string)
  {
    |s| > 0 && '/' !in s && NoSpace(s)
  }

  /** `url` is matched by the pattern with `loc` as its three groups. */
  ghost predicate Fits(url: string, loc: Location)
  {
    IsInstanceURL(loc.domain) && IsSegment(loc.namespace) && IsSegment(loc.project)
    && (url == loc.domain + "/" + loc.namespace + "/" + loc.project
        || url == loc.domain + "/" + loc.namespace + "/" + loc.project + "/")
  }

  /** `url` without the one trailing `/` that the pattern's `/?` absorbs. */
  function DropTrailingSlash(url: string): (r: string)
    ensures url == r || url == r + "/"
    ensures |url| > 0 && url[|url| - 1] == '/' ==> url == r + "/"
  {
    if |url| > 0 && url[|url| - 1] == '/' then url[..|url| - 1] else url
  }

  /**
   * The match of the self-hosting pattern, computed without a regular
   * expression: the project is what follows the last `/`, the namespace what
   * lies between the last two, and the domain everything before them.
   */
  function Parse(url: string): (r: Option<Location>)
    ensures r.Some? ==> IsInstanceURL(r.value.domain) && IsSegment(r.value.namespace)
                        && IsSegment(r.value.project)
  {
    if !NoSpace(url) then None
    else
      var t := DropTrailingSlash(url);
      var j := LastIndexOf(t, '/');
      if j < 0 then None
      else
        var i := LastIndexOf(t[..j], '/');
        if i < 0 then None
        else if IsInstanceURL(t[..i]) && i + 1 < j && j + 1 < |t| then
          SlicesNoSpace(url, t, i + 1, j);
          SlicesNoSpace(url, t, j + 1, |t|);
          Some(Location(t[..i], t[i + 1..j], t[j + 1..]))
        else None
  }

  /** A slice of a whitespace-free URL, with or without its trailing `/`, is whitespace-free. */
  lemma SlicesNoSpace(url: string, t: string, lo: nat, hi: nat)
    requires NoSpace(url) && (url == t || url == t + "/")
    requires lo <= hi <= |t|
    ensures NoSpace(t[lo..hi])
  {
    forall k | 0 <= k < hi - lo ensures !IsSpace(t[lo..hi][k]) {
      assert t[lo..hi][k] == url[lo + k];
    }
  }

  /** Every match Parse reports is a match of the pattern. */
  lemma ParseSound(url: string)
    requires Parse(url).Some?
    ensures Fits(url, Parse(url).value)
  {
    var t := DropTrailingSlash(url);
    var j := LastIndexOf(t, '/');
    var i := LastIndexOf(t[..j], '/');
    assert t == t[..i] + "/" + t[i + 1..j] + "/" + t[j + 1..];
  }

  /** Every match of the pattern is the one Parse reports. */
  lemma ParseComplete(url: string, loc: Location)
    requires Fits(url, loc)
    ensures Parse(url) == Some(loc)
  {
    FitsNoSpace(url, loc);
    ParseAt(url, loc.domain, loc.namespace, loc.project);
  }

  /** Parse finds the groups of `d/n/p`, with or without a trailing `/`, when `n` and `p` are slash-free. */
  lemma ParseAt(url: string, d: string, n: string, p: string)
    requires NoSpace(url) && IsInstanceURL(d)
    requires |n| > 0 && '/' !in n && |p| > 0 && '/' !in p
    requires url == d + "/" + n + "/" + p || url == d + "/" + n + "/" + p + "/"
    ensures Parse(url) == Some(Location(d, n, p))
  {
    var t := d + "/" + n + "/" + p;
    FitsDropSlash(url, t, p);
    LastTwoSlashes(d, n, p);
    ParseUnfold(url, t, |d|, |d| + 1 + |n|);
  }

  /** The pattern's `/?` takes at most the one `/` after a non-empty project without `/`. */
  lemma FitsDropSlash(url: string, t: string, p: string)
    requires |p| > 0 && '/' !in p && |t| >= |p| && t[|t| - |p|..] == p
    requires url == t || url == t + "/"
    ensures DropTrailingSlash(url) == t
  {
    assert t[|t| - 1] == p[|p| - 1];
  }

  /** Parse unfolded: with the two separators found, the three slices are the result. */
  lemma ParseUnfold(url: string, t: string, i: int, j: int)
    requires NoSpace(url) && t == DropTrailingSlash(url)
    requires 0 <= j < |t| && LastIndexOf(t, '/') == j && LastIndexOf(t[..j], '/') == i
    requires 0 <= i && IsInstanceURL(t[..i]) && i + 1 < j && j + 1 < |t|
    ensures Parse(url) == Some(Location(t[..i], t[i + 1..j], t[j + 1..]))
  {
    SlicesNoSpace(url, t, i + 1, j);
    SlicesNoSpace(url, t, j + 1, |t|);
  }

  lemma FitsNoSpace(url: string, loc: Location)
    requires Fits(url, loc)
    ensures NoSpace(url)
  {
    var d, n, p := loc.domain, loc.namespace, loc.project;
    var j := |d| + 1 + |n|;
    forall k | 0 <= k < |url| ensures !IsSpace(url[k]) {
      if k < |d| {
        assert url[k] == d[k];
      } else if |d| < k < j {
        assert url[k] == n[k - |d| - 1];
      } else if j < k < j + 1 + |p| {
        assert url[k] == p[k - j - 1];
      }
    }
  }

  /** In `d/n/p` with slash-free `n` and `p`, the last two `/` are the separators. */
  lemma LastTwoSlashes(d: string, n: string, p: string)
    requires '/' !in n && '/' !in p
    ensures var t := d + "/" + n + "/" + p; var j := |d| + 1 + |n|;
      LastIndexOf(t, '/') == j && LastIndexOf(t[..j], '/') == |d|
      && t[..|d|] == d && t[|d| + 1..j] == n && t[j + 1..] == p
  {
    var t := d + "/" + n + "/" + p;
    var j := |d| + 1 + |n|;
    assert t[j] == '/';
    forall m | j < m < |t| ensures t[m] != '/' {
      assert t[m] == p[m - j - 1];
    }
    LastIndexOfIs(t, '/', j);
    var u := t[..j];
    assert u == d + "/" + n;
    assert u[|d|] == '/';
    forall m | |d| < m < |u| ensures u[m] != '/' {
      assert u[m] == n[m - |d| - 1];
    }
    LastIndexOfIs(u, '/', |d|);
    assert t[j + 1..] == p;
    assert t[..|d|] == d;
    assert t[|d| + 1..j] == n;
  }

  /** The pattern never has two different matches: the greedy group 1 changes nothing. */
  lemma FitsUnique(url: string, a: Location, b: Location)
    requires Fits(url, a) && Fits(url, b)
    ensures a == b
  {
    ParseComplete(url, a);
    ParseComplete(url, b);
  }

  /** Parse fails exactly when the pattern does not match. */
  lemma ParseNoneIff(url: string)
    ensures Parse(url).None? <==> forall loc :: !Fits(url, loc)
  {
    if Parse(url).Some? {
      ParseSound(url);
    } else {
      forall loc ensures !Fits(url, loc) {
        if Fits(url, loc) {
          ParseComplete(url, loc);
        }
      }
    }
  }

  /** A URL the pattern matches has at least four `/`: two in the scheme, two before the segments. */
  lemma ParseSlashCount(url: string)
    requires Parse(url).Some?
    ensures Count(url, '/') >= 4
  {
    ParseSound(url);
    FitsSlashCount(url, Parse(url).value);
  }

  lemma FitsSlashCount(url: string, loc: Location)
    requires Fits(url, loc)
    ensures Count(url, '/') >= 4
  {
    var d := loc.domain;
    // the two slashes of the scheme sit at positions k - 1 and k
    var k := if d[..7] == "http://" then 6 else 7;
    assert d[k - 1] == '/' && d[k] == '/' by {
      if d[..7] == "http://" { assert d[5] == d[..7][5]; assert d[6] == d[..7][6]; }
      else { assert d[6] == d[..8][6]; assert d[7] == d[..8][7]; }
    }
    assert d == d[..k] + d[k..];
    CountConcat(d[..k], d[k..], '/');
    CountOccurrence(d[..k], '/', k - 1);
    CountOccurrence(d[k..], '/', 0);
    var t1 := d + "/";
    CountConcat(d, "/", '/');
    var t2 := t1 + loc.namespace;
    CountConcat(t1, loc.namespace, '/');
    var t3 := t2 + "/";
    CountConcat(t2, "/", '/');
    var t := t3 + loc.project;
    CountConcat(t3, loc.project, '/');
    assert Count(t, '/') >= 4;
    CountConcat(t, "/", '/');
  }

  // ---------------------------------------------------------------------------
  // Classification and decomposition
  // ---------------------------------------------------------------------------

  /** `isGitLabURL`: a valid URL with at least five `/`-separated pieces that mentions `gitlab.com`. */
  function IsGitLabURL(env: Env, url: string): (r: bool)
    ensures r <==> env.isValidURL(url) && Count(url, '/') >= 4
                   && exists i: nat :: OccursAt(url, "gitlab.com", i)
  {
    SplitLength(url, '/');
    ContainsIff(url, "gitlab.com");
    env.isValidURL(url) && |Split(url, '/')| >= 5 && Contains(url, "gitlab.com")
  }

  /**
   * For a valid URL of the self-hosting shape, `isGitLabURL` depends on the
   * `gitlab.com` substring alone: the piece count never rejects it.
   */
  lemma GitLabURLOnMatchingShape(env: Env, url: string)
    requires env.isValidURL(url) && Parse(url).Some?
    ensures IsGitLabURL(env, url) <==> Contains(url, "gitlab.com")
  {
    ParseSlashCount(url);
    ContainsIff(url, "gitlab.com");
  }

  /** The pattern matches, and the domain is not withheld for a GitHub URL. */
  predicate Resolvable(env: Env, url: string)
  {
    !env.isGitHubURL(url) && env.isValidString(url) && Parse(url).Some?
  }

  /** `getSelfHostingGitLabDomain`: group 1, unless the URL is GitHub's or invalid. */
  function GetSelfHostingGitLabDomain(env: Env, url: string): (r: Option<string>)
    ensures env.isGitHubURL(url) ==> r == None
    ensures !env.isValidString(url) ==> r == None
    ensures r.Some? <==> Resolvable(env, url)
    ensures r.Some? ==> IsInstanceURL(r.value) && r.value == Parse(url).value.domain
  {
    if env.isGitHubURL(url) then None
    else if !env.isValidString(url) then None
    else
      match Parse(url)
      case Some(loc) => Some(loc.domain)
      case None => None
  }

  /** `getGitLabDomain`: the self-hosting domain followed by `/`. */
  function GetGitLabDomain(env: Env, url: string): (r: Option<string>)
    ensures r.Some? <==> GetSelfHostingGitLabDomain(env, url).Some?
    ensures r.Some? ==> r.value == GetSelfHostingGitLabDomain(env, url).value + "/"
    ensures r.Some? ==> |r.value| > 0 && r.value[|r.value| - 1] == '/'
  {
    if !env.isValidString(url) then None
    else
      var selfHosting := GetSelfHostingGitLabDomain(env, url);
      if selfHosting.Some? then Some(selfHosting.value + "/") else None
  }

  /** `getGitLabURL`: the same value as `getGitLabDomain`. */
  function GetGitLabURL(env: Env, url: string): (r: Option<string>)
    ensures r == GetGitLabDomain(env, url)
  {
    if !env.isValidString(url) then None else GetGitLabDomain(env, url)
  }

  /** `getGitLabAPIURL`: the root of the REST API, `<domain>/api/v4/`. */
  function GetGitLabAPIURL(env: Env, url: string): (r: Option<string>)
    ensures r.Some? <==> Resolvable(env, url)
    ensures r.Some? ==> r.value == Parse(url).value.domain + "/" + "api/v4/"
  {
    var domain := GetGitLabDomain(env, url);
    // JavaScript truthiness: neither null nor the empty string
    if domain.Some? && domain.value != "" then Some(domain.value + "api/v4/") else None
  }

  /** `getGitLabNameSpaceFromGitURL`: group 2; unlike the domain, also for a GitHub URL. */
  function GetGitLabNameSpaceFromGitURL(env: Env, url: string): (r: Option<string>)
    ensures r.Some? <==> env.isValidString(url) && Parse(url).Some?
    ensures r.Some? ==> IsSegment(r.value) && r.value == Parse(url).value.namespace
  {
    if !env.isValidString(url) then None
    else
      match Parse(url)
      case Some(loc) => Some(loc.namespace)
      case None => None
  }

  /** `getGitLabProjectFromGitURL`: group 3; unlike the domain, also for a GitHub URL. */
  function GetGitLabProjectFromGitURL(env: Env, url: string): (r: Option<string>)
    ensures r.Some? <==> env.isValidString(url) && Parse(url).Some?
    ensures r.Some? ==> IsSegment(r.value) && r.value == Parse(url).value.project
  {
    if !env.isValidString(url) then None
    else
      match Parse(url)
      case Some(loc) => Some(loc.project)
      case None => None
  }

  /** The three derivations from the same URL fit together into that URL. */
  lemma DerivationsConsistent(env: Env, url: string)
    requires GetSelfHostingGitLabDomain(env, url).Some?
    ensures GetGitLabNameSpaceFromGitURL(env, url).Some?
    ensures GetGitLabProjectFromGitURL(env, url).Some?
    ensures Fits(url, Location(GetSelfHostingGitLabDomain(env, url).value,
                               GetGitLabNameSpaceFromGitURL(env, url).value,
                               GetGitLabProjectFromGitURL(env, url).value))
  {
    // optional hint: makes the proof cheaper and steadier across solver seeds
    ParseSound(url);
  }

  /** The API root lies on the instance of the repository: the URL up to its namespace, then `api/v4/`. */
  lemma APIURLOnSameInstance(env: Env, url: string)
    requires GetGitLabAPIURL(env, url).Some?
    ensures var k := |Parse(url).value.domain| + 1;
      k <= |url| && url[k - 1] == '/' && GetGitLabAPIURL(env, url).value == url[..k] + "api/v4/"
  {
    // optional hints: make the proof cheaper and steadier across solver seeds
    ParseSound(url);
    var loc := Parse(url).value;
    assert url[..|loc.domain| + 1] == loc.domain + "/";
  }

  // ---------------------------------------------------------------------------
  // The two classifiers side by side
  // ---------------------------------------------------------------------------

  /** A host name as it appears in a project URL: lower-case letters, digits, dots and dashes. */
  predicate IsPlainHost(host: string)
  {
    |host| > 0
    && forall k :: 0 <= k < |host| ==>
         host[k] == '.' || host[k] == '-' || 'a' <= host[k] <= 'z' || '0' <= host[k] <= '9'
  }

  /** `https://<host>/<namespace>/<project>` fits the pattern with the evident groups. */
  lemma HostURLFits(url: string, host: string, namespace: string, project: string)
    requires IsPlainHost(host) && IsSegment(namespace) && IsSegment(project)
    requires url == "https://" + host + "/" + namespace + "/" + project
    ensures Fits(url, Location("https://" + host, namespace, project))
  {
  }

  /** Domain, namespace and project of a project URL on any host, when the validators accept it. */
  lemma HostURLDecomposition(env: Env, url: string, host: string, namespace: string, project: string)
    requires IsPlainHost(host) && IsSegment(namespace) && IsSegment(project)
    requires url == "https://" + host + "/" + namespace + "/" + project
    requires !env.isGitHubURL(url) && env.isValidString(url)
    ensures GetGitLabDomain(env, url) == Some("https://" + host + "/")
    ensures GetGitLabNameSpaceFromGitURL(env, url) == Some(namespace)
    ensures GetGitLabProjectFromGitURL(env, url) == Some(project)
  {
    HostURLFits(url, host, namespace, project);
    ParseComplete(url, Location("https://" + host, namespace, project));
  }

  /**
   * The asymmetry between the two classifiers: a project URL that does not
   * mention gitlab.com yields a self-hosting domain, yet is no GitLab URL.
   */
  lemma SelfHostedAsymmetry(env: Env, url: string, host: string, namespace: string, project: string)
    requires IsPlainHost(host) && IsSegment(namespace) && IsSegment(project)
    requires url == "https://" + host + "/" + namespace + "/" + project
    requires !env.isGitHubURL(url) && env.isValidString(url) && !Contains(url, "gitlab.com")
    ensures GetSelfHostingGitLabDomain(env, url) == Some("https://" + host)
    ensures !IsGitLabURL(env, url)
  {
    HostURLFits(url, host, namespace, project);
    ParseComplete(url, Location("https://" + host, namespace, project));
    ContainsIff(url, "gitlab.com");
  }

  /** A string without a `b` never contains `gitlab.com`. */
  lemma NoGitLabComWithoutB(url: string)
    requires 'b' !in url
    ensures !Contains(url, "gitlab.com")
  {
    ContainsIff(url, "gitlab.com");
    forall i: nat ensures !OccursAt(url, "gitlab.com", i) {
      if i + 10 <= |url| {
        assert url[i..i + 10][5] == url[i + 5] != 'b';
      }
    }
  }

  /** `https://git.example.com/group/proj` is one URL the asymmetry applies to. */
  lemma SelfHostedIsNotGitLabURL(env: Env, url: string)
    requires url == "https://git.example.com/group/proj"
    ensures !IsGitLabURL(env, url)
  {
    NoGitLabComWithoutB(url);
  }

  /** A project URL on gitlab.com is a GitLab URL exactly when it is a valid URL. */
  lemma GitLabComURLIsGitLabURL(env: Env, url: string, namespace: string, project: string)
    requires IsSegment(namespace) && IsSegment(project)
    requires url == "https://gitlab.com/" + namespace + "/" + project
    ensures IsGitLabURL(env, url) <==> env.isValidURL(url)
  {
    GitLabComURLParses(url, namespace, project);
    GitLabComURLMentionsGitLabCom(url, namespace + "/" + project);
    if env.isValidURL(url) {
      GitLabURLOnMatchingShape(env, url);
    }
  }

  lemma GitLabComURLParses(url: string, namespace: string, project: string)
    requires IsSegment(namespace) && IsSegment(project)
    requires url == "https://gitlab.com/" + namespace + "/" + project
    ensures Parse(url).Some?
  {
    assert "https://gitlab.com/" == "https://" + "gitlab.com" + "/";
    HostURLFits(url, "gitlab.com", namespace, project);
    ParseComplete(url, Location("https://" + "gitlab.com", namespace, project));
  }

  lemma GitLabComURLMentionsGitLabCom(url: string, path: string)
    requires url == "https://gitlab.com/" + path
    ensures Contains(url, "gitlab.com")
  {
    assert url[8..18] == "https://gitlab.com/"[8..18] == "gitlab.com";
    assert OccursAt(url, "gitlab.com", 8);
    ContainsIff(url, "gitlab.com");
  }

  // ---------------------------------------------------------------------------
  // Query strings
  // ---------------------------------------------------------------------------

  /** The token is present, valid and not the placeholder. */
  predicate UsableToken(env: Env, token: Option<string>)
  {
    IsValidToken(env, token) && token.value != TokenPlaceholder
  }

  /** `postFixToken`: the seed of every query string. */
  function PostFixToken(env: Env, token: Option<string>): (r: string)
    ensures |r| > 0 && r[0] == '?'
    ensures r == "?" <==> !UsableToken(env, token)
    ensures UsableToken(env, token) ==> r == "?access_token=" + token.value
  {
    var postFix := "?";
    if UsableToken(env, token) then postFix + ("access_token=" + token.value) else postFix
  }

  /** The fragment one label adds to the `labels` parameter. */
  function LabelPiece(env: Env, entry: IdName): string
  {
    if env.isValidIDName(entry) then entry.name + "," else ""
  }

  /** The value of the `labels` parameter: every valid label's name followed by `,`. */
  function LabelsQuery(env: Env, labels: seq<IdName>): string
  {
    if labels == [] then "" else LabelPiece(env, labels[0]) + LabelsQuery(env, labels[1..])
  }

  /**
   * The `labels` parameter is empty exactly when no label passes
   * `isValidIDName`, and otherwise ends in `,`.
   */
  lemma {:induction false} LabelsQueryShape(env: Env, labels: seq<IdName>)
    ensures LabelsQuery(env, labels) == "" <==> forall k :: 0 <= k < |labels| ==> !env.isValidIDName(labels[k])
    ensures var q := LabelsQuery(env, labels); q != "" ==> q[|q| - 1] == ','
  {
    if labels != [] {
      LabelsQueryShape(env, labels[1..]);
      assert forall k :: 1 <= k < |labels| ==> labels[k] == labels[1..][k - 1];
    }
  }

  /** The names of the valid labels, in list order. */
  function ValidLabelNames(env: Env, labels: seq<IdName>): (r: seq<string>)
    ensures |r| <= |labels|
  {
    if labels == [] then []
    else (if env.isValidIDName(labels[0]) then [labels[0].name] else [])
         + ValidLabelNames(env, labels[1..])
  }

  lemma {:induction false} LabelsQueryConcat(env: Env, a: seq<IdName>, b: seq<IdName>)
    ensures LabelsQuery(env, a + b) == LabelsQuery(env, a) + LabelsQuery(env, b)
  {
    if a != [] {
      assert (a + b)[1..] == a[1..] + b;
      LabelsQueryConcat(env, a[1..], b);
    } else {
      assert a + b == b;
    }
  }

  /** One more label adds its own fragment at the end. */
  lemma LabelsQueryStep(env: Env, labels: seq<IdName>, i: nat)
    requires i < |labels|
    ensures LabelsQuery(env, labels[..i + 1]) == LabelsQuery(env, labels[..i]) + LabelPiece(env, labels[i])
  {
    assert labels[..i + 1] == labels[..i] + [labels[i]];
    assert LabelsQuery(env, [labels[i]]) == LabelPiece(env, labels[i]) by {
      assert [labels[i]][1..] == [];
    }
    LabelsQueryConcat(env, labels[..i], [labels[i]]);
  }

  /**
   * The labels query decodes back to the valid labels' names: splitting it on
   * `,` gives those names, in order, and the empty piece after the trailing
   * comma, provided no valid name contains a comma.
   */
  lemma {:induction false} LabelsQueryDecodes(env: Env, labels: seq<IdName>)
    requires forall k :: 0 <= k < |labels| && env.isValidIDName(labels[k]) ==> ',' !in labels[k].name
    ensures Split(LabelsQuery(env, labels), ',') == ValidLabelNames(env, labels) + [""]
  {
    if labels != [] {
      LabelsQueryDecodes(env, labels[1..]);
      var rest := LabelsQuery(env, labels[1..]);
      var names := ValidLabelNames(env, labels[1..]);
      if env.isValidIDName(labels[0]) {
        var name := labels[0].name;
        assert ',' !in name;
        assert LabelsQuery(env, labels) == name + [','] + rest;
        SplitAfterPiece(name, ',', rest);
        assert ValidLabelNames(env, labels) + [""] == [name] + (names + [""]);
      } else {
        assert LabelsQuery(env, labels) == rest;
        assert ValidLabelNames(env, labels) == names;
      }
    }
  }

  /** The `assignee_id` parameter, present when the assignee has a name. */
  function AssigneeQuery(env: Env, assignee: IdName): string
  {
    if env.isValidIDName(assignee) && assignee.name != "" then "&assignee_id=" + env.toStr(assignee.id) else ""
  }

  /** The query string of the filtered issue list. */
  function FilteredIssuesQuery(env: Env, token: Option<string>, labels: seq<IdName>, assignee: IdName)
    : (r: string)
    ensures |r| >= 26 && r[0] == '?'
    ensures r[|r| - 26..] == "&per_page=100&state=opened"
  {
    PostFixToken(env, token) + "&labels=" + LabelsQuery(env, labels) + AssigneeQuery(env, assignee)
    + "&per_page=100&state=opened"
  }

  /**
   * The filtered query with one label `bug` and the assignee 7 named `alice`:
   * `?access_token=t&labels=bug,&assignee_id=7&per_page=100&state=opened`.
   */
  lemma FilteredIssuesQueryExample(env: Env, bugId: int)
    requires env.isValidString("t") && env.isValidIDName(IdName(bugId, "bug"))
    requires env.isValidIDName(IdName(7, "alice")) && env.toStr(7) == "7"
    ensures FilteredIssuesQuery(env, Some("t"), [IdName(bugId, "bug")], IdName(7, "alice"))
            == "?access_token=t" + "&labels=bug," + "&assignee_id=7" + "&per_page=100&state=opened"
  {
    var labels := [IdName(bugId, "bug")];
    assert LabelsQuery(env, labels) == "bug," by {
      assert labels[1..] == [];
    }
    TokenExample(env);
    assert "&labels=" + "bug," == "&labels=bug,";
  }

  lemma TokenExample(env: Env)
    requires env.isValidString("t")
    ensures PostFixToken(env, Some("t")) == "?access_token=t"
  {
    assert "t" != TokenPlaceholder;
  }

  // ---------------------------------------------------------------------------
  // API endpoints
  // ---------------------------------------------------------------------------

  /** A value that may be `null` as an operand of JavaScript's `+` whose other operand is a string: `null` reads `null`. */
  function Text(s: Option<string>): string
  {
    if s.Some? then s.value else "null"
  }

  /**
   * JavaScript's `a + b` on two values that may be `null`: two `null`s add as
   * numbers, to `0`; otherwise one operand is a string and both are concatenated.
   */
  function Plus(a: Option<string>, b: Option<string>): string
  {
    if a.None? && b.None? then "0" else Text(a) + Text(b)
  }

  /** The namespace and project are defined: the URL is a valid variable and the pattern matches. */
  predicate Decomposable(env: Env, url: string)
  {
    env.isValidString(url) && Parse(url).Some?
  }

  /**
   * `getGitLabAPIURL(url) + 'projects/' + namespace + '%2F' + project`, the path
   * shared by the project endpoints. A GitHub URL has no API root, and a URL
   * that does not match has no groups either; each missing part reads `null`.
   */
  function ProjectAPIPath(env: Env, url: string): (r: string)
    ensures Resolvable(env, url) ==> var loc := Parse(url).value;
              r == loc.domain + "/" + "api/v4/" + "projects/" + loc.namespace + "%2F" + loc.project
    ensures !Resolvable(env, url) && Decomposable(env, url) ==> var loc := Parse(url).value;
              r == "null" + "projects/" + loc.namespace + "%2F" + loc.project
    ensures !Decomposable(env, url) ==> r == "null" + "projects/" + "null" + "%2F" + "null"
  {
    Text(GetGitLabAPIURL(env, url)) + "projects/" + Text(GetGitLabNameSpaceFromGitURL(env, url)) + "%2F"
    + Text(GetGitLabProjectFromGitURL(env, url))
  }

  /**
   * The path and query of the filtered issue list for a project on any plain
   * host, with token `t`, one label `bug` and the assignee 7 named `alice`.
   */
  lemma FilteredIssuesURLOnHost(env: Env, url: string, host: string, namespace: string, project: string,
                                bugId: int)
    requires IsPlainHost(host) && IsSegment(namespace) && IsSegment(project)
    requires url == "https://" + host + "/" + namespace + "/" + project
    requires !env.isGitHubURL(url) && env.isValidString(url)
    requires env.isValidString("t") && env.isValidIDName(IdName(bugId, "bug"))
    requires env.isValidIDName(IdName(7, "alice")) && env.toStr(7) == "7"
    ensures ProjectAPIPath(env, url) + "/issues"
              + FilteredIssuesQuery(env, Some("t"), [IdName(bugId, "bug")], IdName(7, "alice"))
            == "https://" + host + "/" + "api/v4/" + "projects/" + namespace + "%2F" + project + "/issues"
               + ("?access_token=t" + "&labels=bug," + "&assignee_id=7" + "&per_page=100&state=opened")
  {
    HostURLFits(url, host, namespace, project);
    ParseComplete(url, Location("https://" + host, namespace, project));
    FilteredIssuesQueryExample(env, bugId);
  }

  /** `getGitLabAPIURLIssueFilterd`: the open issues with the given labels and assignee, 100 per page. */
  method GetGitLabAPIURLIssueFiltered(env: Env, url: string, token: Option<string>,
                                      labels: seq<IdName>, assignee: IdName)
    returns (r: Option<string>)
    ensures r.Some? <==> env.isValidURL(url) && IsValidToken(env, token) && env.isValidLabelList(labels)
                         && env.isValidIDName(assignee)
    ensures r.Some? ==> r.value == ProjectAPIPath(env, url) + "/issues" + FilteredIssuesQuery(env, token, labels, assignee)
    ensures r.Some? && Resolvable(env, url) ==> var loc := Parse(url).value;
              r.value == loc.domain + "/" + "api/v4/" + "projects/" + loc.namespace + "%2F" + loc.project
                         + "/issues" + FilteredIssuesQuery(env, token, labels, assignee)
  {
    if !env.isValidURL(url) {
      return None;
    }
    if !IsValidToken(env, token) {
      return None;
    }
    if !env.isValidLabelList(labels) {
      return None;
    }
    if !env.isValidIDName(assignee) {
      return None;
    }
    var postFix := PostFixToken(env, token);
    if env.isValidLabelList(labels) {
      postFix := postFix + "&labels=";
      for i := 0 to |labels|
        invariant postFix == PostFixToken(env, token) + "&labels=" + LabelsQuery(env, labels[..i])
      {
        if env.isValidIDName(labels[i]) {
          postFix := postFix + (labels[i].name + ",");
        }
        LabelsQueryStep(env, labels, i);
      }
      assert labels[..|labels|] == labels;
    }
    if env.isValidIDName(assignee) {
      if assignee.name != "" {
        postFix := postFix + ("&assignee_id=" + env.toStr(assignee.id));
      }
    }
    postFix := postFix + "&per_page=100&state=opened";
    assert postFix == FilteredIssuesQuery(env, token, labels, assignee);
    r := Some(ProjectAPIPath(env, url) + "/issues" + postFix);
  }

  /** `getGitabAPIURLIssuebyNumber`: one issue of the project. */
  function GetGitLabAPIURLIssueByNumber(env: Env, url: string, token: Option<string>, number: Option<int>)
    : (r: Option<string>)
    ensures r.Some? <==> env.isValidURL(url) && IsValidToken(env, token) && IsValidNumber(env, number)
    ensures r.Some? ==> r.value == ProjectAPIPath(env, url) + "/issues/" + env.toStr(number.value)
                                   + PostFixToken(env, token)
    ensures r.Some? && Resolvable(env, url) ==> var loc := Parse(url).value;
              r.value == loc.domain + "/" + "api/v4/" + "projects/" + loc.namespace + "%2F" + loc.project
                         + "/issues/" + env.toStr(number.value) + PostFixToken(env, token)
  {
    if !env.isValidURL(url) || !IsValidToken(env, token) || !IsValidNumber(env, number) then None
    else Some(ProjectAPIPath(env, url) + "/issues/" + env.toStr(number.value) + PostFixToken(env, token))
  }

  /** `getGitLabAPIURLLabel`: the labels of the project, 100 per page. */
  function GetGitLabAPIURLLabel(env: Env, url: string, token: Option<string>): (r: Option<string>)
    ensures r.Some? <==> env.isValidURL(url)
    ensures r.Some? ==> r.value == ProjectAPIPath(env, url) + "/labels" + PostFixToken(env, token) + "&per_page=100"
    ensures r.Some? && Resolvable(env, url) ==> var loc := Parse(url).value;
              r.value == loc.domain + "/" + "api/v4/" + "projects/" + loc.namespace + "%2F" + loc.project
                         + "/labels" + PostFixToken(env, token) + "&per_page=100"
  {
    if !env.isValidURL(url) then None
    else
      var postFix := PostFixToken(env, token) + "&per_page=100";
      Some(ProjectAPIPath(env, url) + "/labels" + postFix)
  }

  /** `getGitLabAPIURLMember`: the members of the namespace (the group), not of the project. */
  function GetGitLabAPIURLMember(env: Env, url: string, token: Option<string>): (r: Option<string>)
    ensures r.Some? <==> env.isValidURL(url)
    ensures r.Some? && Resolvable(env, url) ==> var loc := Parse(url).value;
              r.value == loc.domain + "/" + "api/v4/" + "groups/" + loc.namespace + "/members/all" + PostFixToken(env, token)
    ensures r.Some? && !Resolvable(env, url) && Decomposable(env, url) ==> var loc := Parse(url).value;
              r.value == "null" + "groups/" + loc.namespace + "/members/all" + PostFixToken(env, token)
    ensures r.Some? && !Decomposable(env, url) ==>
              r.value == "null" + "groups/" + "null" + "/members/all" + PostFixToken(env, token)
  {
    if !env.isValidURL(url) then None
    else
      Some(Text(GetGitLabAPIURL(env, url)) + "groups/" + Text(GetGitLabNameSpaceFromGitURL(env, url))
           + "/members/all" + PostFixToken(env, token))
  }

  // ---------------------------------------------------------------------------
  // Web pages
  // ---------------------------------------------------------------------------

  /**
   * `getGitLabURL(url) + namespace + '/' + project`, the page of the project:
   * the git URL itself when the domain resolves. Otherwise the missing parts
   * read `null`, except that two missing leading parts add up to `0`.
   */
  function WebProjectPath(env: Env, url: string): (r: string)
    ensures Resolvable(env, url) ==> r == DropTrailingSlash(url)
    ensures !Resolvable(env, url) && Decomposable(env, url) ==> var loc := Parse(url).value;
              r == "null" + loc.namespace + "/" + loc.project
    ensures !Decomposable(env, url) ==> r == "0" + "/" + "null"
  {
    var page := Plus(GetGitLabURL(env, url), GetGitLabNameSpaceFromGitURL(env, url)) + "/"
                + Text(GetGitLabProjectFromGitURL(env, url));
    if Resolvable(env, url) then ParseSound(url); page else page
  }

  /** `getGitLabURLIssuebyNumber`: the page of one issue. */
  function GetGitLabURLIssueByNumber(env: Env, url: string, number: int): (r: Option<string>)
    ensures r.Some? <==> env.isValidURL(url)
    ensures r.Some? ==> r.value == WebProjectPath(env, url) + "/-/issues/" + env.toStr(number)
    ensures r.Some? && Resolvable(env, url) ==> r.value == DropTrailingSlash(url) + "/-/issues/" + env.toStr(number)
  {
    if !env.isValidURL(url) then None
    else Some(WebProjectPath(env, url) + "/-/issues/" + env.toStr(number))
  }

  /** `getGitLabURLNewIssueWithTemplate`: the new-issue page with an empty description. */
  function GetGitLabURLNewIssueWithTemplate(env: Env, url: string): (r: Option<string>)
    ensures r.Some? <==> env.isValidURL(url)
    ensures r.Some? ==> r.value == WebProjectPath(env, url) + "/issues/new?issue[description]="
    ensures r.Some? && Resolvable(env, url) ==> r.value == DropTrailingSlash(url) + "/issues/new?issue[description]="
  {
    if !env.isValidURL(url) then None
    else Some(WebProjectPath(env, url) + "/issues/new?issue[description]=")
  }

  /**
   * A valid URL that the pattern does not match, such as `https://example.com/a`:
   * neither the page nor the namespace exists, and `null + null` adds up to `0`.
   */
  lemma WebPagesOfUnmatchedURL(env: Env, url: string, number: int)
    requires env.isValidURL(url) && Parse(url).None?
    ensures GetGitLabURLIssueByNumber(env, url, number) == Some("0" + "/" + "null" + "/-/issues/" + env.toStr(number))
    ensures GetGitLabURLNewIssueWithTemplate(env, url) == Some("0" + "/" + "null" + "/issues/new?issue[description]=")
  {
    assert !Decomposable(env, url);
  }
}

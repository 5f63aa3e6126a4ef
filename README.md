# GitLab URL helper, modelled in Dafny

This project models `src/functions/GitLab/GitLabURLHelper.js`: the layer that
turns the git remote URL of a project into GitLab REST API (v4) endpoints and
GitLab web pages. It does no I/O. The URL builders validate their inputs,
decompose the URL into an instance domain, a namespace and a project, and
concatenate those with fixed path segments. The four API builders then append
a query string that always starts with the access-token fragment. `isGitLabURL`
is a separate classifier, and `postFixToken` builds only that token fragment.

Files:

- `wrappers.dfy`: module `Wrappers`, the `Option` type that stands for JavaScript's `null`.
- `strings.dfy`: module `Strings`, the string operations the model needs:
  - the `\s` character class of JavaScript regular expressions;
  - `split` with a one-character separator, with `Join` as its inverse;
  - the substring test that `/gitlab\.com/.test(...)` performs;
  - `LastIndexOf`, which the source does not call: `Parse` uses it to find
    the two `/` that separate the pattern's groups.
- `gitlab_url_helper.dfy`: module `GitLabURLHelper`, the helper itself.

Modelling decisions:

- The regular expression `^(https?://\S+)/([^/\s]+)/([^/\s]+)/?$` is replaced by
  `Parse`. Parse drops one trailing `/` and takes the project after the last `/`
  and the namespace between the last two. The domain is everything before them.
  The domain must be `http://` or `https://` followed by at least one character.
  `ParseSound` and `ParseComplete` prove that Parse returns exactly the match of
  the pattern. `FitsUnique` proves that the pattern never has two matches, so
  the greedy first group makes no difference.
- The validators the helper imports (`isValidURL`, `isValidVariable`,
  `isValidIDName`, `isGitHubURL`) are the fields of the datatype `Env`. Nothing is
  assumed about the answers they give for present values. `isValidVariable` is
  used on strings, numbers and the label list, so `Env` has one field for each.
  An absent token or issue number is an `Option` value `None`. The model assumes
  that `isValidVariable` rejects an absent value, so `None` never counts as a
  valid variable.
- The conversion JavaScript applies when it concatenates a number to a string is
  the `Env` field `toStr`. Nothing is assumed about it.
- Results that may be `null` are `Option<string>`.
- The builders concatenate the results of the decomposition functions without
  checking them.
  - When the other operand of `+` is a string, JavaScript turns a `null` operand
    into the text `null`. The model does the same with `Text`.
  - When both operands are `null`, `+` adds them as numbers, giving `0`. The
    model does the same with `Plus`. This happens in the web builders, whose
    first two operands are both `null` for a URL that does not match.
  - So for a GitHub URL, or a valid URL that does not match the pattern, a
    builder returns text that contains `null` or starts with `0`, as the source
    does.

Two behaviours of the source worth noting:

- `getGitLabNameSpaceFromGitURL` and `getGitLabProjectFromGitURL` do not check
  `isGitHubURL`, so they decompose a GitHub URL while the domain functions return
  `null` for it.
- The `&labels=` fragment of the filtered issue list is always present, because
  the function returns `null` earlier when the label list is not a valid variable.

## Model

| member | source | states |
|---|---|---|
| `Strings.IsSpace` | src/functions/GitLab/GitLabURLHelper.js:11 | the `\s` class: the ECMAScript white space and line terminators; no printable ASCII character other than the space is among them |
| `Strings.Contains` | src/functions/GitLab/GitLabURLHelper.js:20 | the test `/gitlab\.com/.test(url)`, a pattern without metacharacters, so a substring test; it can hold only when the substring fits in the string |
| `Strings.Split` | src/functions/GitLab/GitLabURLHelper.js:17 | `split('/')` always yields at least one piece |
| `Strings.SplitLength` | src/functions/GitLab/GitLabURLHelper.js:17 | `split` yields one piece more than the string has separators |
| `Strings.JoinSplit` | src/functions/GitLab/GitLabURLHelper.js:17 | joining the pieces with the separator gives back the original string |
| `Strings.SplitPiecesFree` | src/functions/GitLab/GitLabURLHelper.js:17 | no piece contains the separator |
| `Strings.ContainsIff` | src/functions/GitLab/GitLabURLHelper.js:20 | the substring test holds iff the substring occurs at some position |
| `Strings.LastIndexOf` | src/functions/GitLab/GitLabURLHelper.js:11 | the result is -1 or the position of a `/`, and no `/` follows it |
| `GitLabURLHelper.IsInstanceURL` | src/functions/GitLab/GitLabURLHelper.js:11 | group 1, `https?://\S+`: `http://` or `https://` followed by at least one character, with no whitespace |
| `GitLabURLHelper.IsSegment` | src/functions/GitLab/GitLabURLHelper.js:11 | groups 2 and 3, `[^/\s]+`: non-empty, no `/`, no whitespace |
| `GitLabURLHelper.Fits` | src/functions/GitLab/GitLabURLHelper.js:11 | the whole pattern: the URL is group 1, `/`, group 2, `/`, group 3, then an optional `/`; `^` and `$` anchor at the ends of input only, since the pattern has no `m` flag; `\s` is JavaScript's set |
| `GitLabURLHelper.DropTrailingSlash` | src/functions/GitLab/GitLabURLHelper.js:11 | the pattern's `/?`: the result is the URL, or the URL with its one trailing `/` removed, and the `/` is removed whenever there is one |
| `GitLabURLHelper.Parse` | src/functions/GitLab/GitLabURLHelper.js:11 | a match has an `http://` or `https://` domain with at least one more character; namespace and project are non-empty and free of `/` and whitespace |
| `GitLabURLHelper.ParseSound` | src/functions/GitLab/GitLabURLHelper.js:11 | the URL is `domain/namespace/project`, with or without one trailing `/`, and the groups obey the pattern |
| `GitLabURLHelper.ParseComplete` | src/functions/GitLab/GitLabURLHelper.js:11 | every decomposition the pattern accepts is the one Parse returns |
| `GitLabURLHelper.FitsUnique` | src/functions/GitLab/GitLabURLHelper.js:11 | the pattern has at most one match, so greedy matching cannot choose between several |
| `GitLabURLHelper.ParseNoneIff` | src/functions/GitLab/GitLabURLHelper.js:11 | Parse fails exactly when no decomposition fits the pattern |
| `GitLabURLHelper.ParseSlashCount` | src/functions/GitLab/GitLabURLHelper.js:11-17 | a URL that fits the pattern contains at least four `/` |
| `GitLabURLHelper.IsGitLabURL` | src/functions/GitLab/GitLabURLHelper.js:13-21 | true iff the URL is valid, has at least four `/` (five pieces) and contains `gitlab.com` |
| `GitLabURLHelper.GitLabURLOnMatchingShape` | src/functions/GitLab/GitLabURLHelper.js:13-21 | for a valid URL that fits the pattern, `isGitLabURL` depends only on the `gitlab.com` substring |
| `GitLabURLHelper.HostURLFits` | src/functions/GitLab/GitLabURLHelper.js:11 | `https://<host>/<namespace>/<project>` fits the pattern with groups `https://<host>`, namespace and project |
| `GitLabURLHelper.SelfHostedAsymmetry` | src/functions/GitLab/GitLabURLHelper.js:13-35 | a project URL that does not mention `gitlab.com` yields its self-hosting domain, yet `isGitLabURL` is false for it |
| `GitLabURLHelper.GitLabComURLIsGitLabURL` | src/functions/GitLab/GitLabURLHelper.js:13-21 | a project URL `https://gitlab.com/<namespace>/<project>` is a GitLab URL exactly when it is a valid URL |
| `GitLabURLHelper.SelfHostedIsNotGitLabURL` | src/functions/GitLab/GitLabURLHelper.js:13-21 | `https://git.example.com/group/proj` is never a GitLab URL, whatever the validators say |
| `GitLabURLHelper.GetSelfHostingGitLabDomain` | src/functions/GitLab/GitLabURLHelper.js:23-35 | `null` for any GitHub URL and any invalid variable; otherwise the domain group exactly when the pattern matches |
| `GitLabURLHelper.GetGitLabDomain` | src/functions/GitLab/GitLabURLHelper.js:37-47 | `null` exactly when the self-hosting domain is `null`; otherwise that domain plus `/`, so it ends in `/` |
| `GitLabURLHelper.GetGitLabURL` | src/functions/GitLab/GitLabURLHelper.js:49-54 | always the same value as `getGitLabDomain` |
| `GitLabURLHelper.GetGitLabAPIURL` | src/functions/GitLab/GitLabURLHelper.js:56-62 | `domain/api/v4/` when the domain resolves, `null` otherwise |
| `GitLabURLHelper.APIURLOnSameInstance` | src/functions/GitLab/GitLabURLHelper.js:56-62 | the API root is the git URL up to and including the `/` before the namespace, followed by `api/v4/` |
| `GitLabURLHelper.GetGitLabNameSpaceFromGitURL` | src/functions/GitLab/GitLabURLHelper.js:64-73 | the namespace group when the URL is a valid variable and matches, `null` otherwise; also for GitHub URLs |
| `GitLabURLHelper.GetGitLabProjectFromGitURL` | src/functions/GitLab/GitLabURLHelper.js:75-84 | the project group when the URL is a valid variable and matches, `null` otherwise; also for GitHub URLs |
| `GitLabURLHelper.DerivationsConsistent` | src/functions/GitLab/GitLabURLHelper.js:23-84 | when the domain resolves, the separately derived domain, namespace and project reassemble into the URL |
| `GitLabURLHelper.HostURLDecomposition` | src/functions/GitLab/GitLabURLHelper.js:37-84 | for `https://<host>/<namespace>/<project>` accepted by the validators: the domain is `https://<host>/`, then the namespace and the project |
| `GitLabURLHelper.UsableToken` | src/functions/GitLab/GitLabURLHelper.js:88-91 | the condition for the token fragment: the token is a valid variable and is not the placeholder text |
| `GitLabURLHelper.PostFixToken` | src/functions/GitLab/GitLabURLHelper.js:86-95 | always starts with `?`; exactly `?` when the token is absent, invalid or the placeholder; otherwise `?access_token=<token>` |
| `GitLabURLHelper.LabelsQuery` | src/functions/GitLab/GitLabURLHelper.js:118-123 | what the `labels.map` callback appends, in list order: `name,` for each label that passes `isValidIDName` |
| `GitLabURLHelper.LabelsQueryShape` | src/functions/GitLab/GitLabURLHelper.js:118-123 | the labels fragment is empty exactly when no label is valid, and otherwise ends in `,` |
| `GitLabURLHelper.LabelsQueryConcat` | src/functions/GitLab/GitLabURLHelper.js:118-123 | the labels fragment of a concatenated list is the concatenation of the fragments, so list order is kept |
| `GitLabURLHelper.LabelsQueryStep` | src/functions/GitLab/GitLabURLHelper.js:118-123 | visiting one more label appends that label's fragment, `name,` when it is valid and nothing otherwise |
| `GitLabURLHelper.LabelsQueryDecodes` | src/functions/GitLab/GitLabURLHelper.js:116-124 | when no valid label name contains a comma, splitting the labels fragment on `,` gives the valid label names in order, then the empty piece after the trailing comma |
| `GitLabURLHelper.AssigneeQuery` | src/functions/GitLab/GitLabURLHelper.js:125-129 | `&assignee_id=<id>` for a valid assignee with a non-empty name, nothing otherwise |
| `GitLabURLHelper.FilteredIssuesQuery` | src/functions/GitLab/GitLabURLHelper.js:115-130 | `post_fix_str` as the filtered builder leaves it: token fragment, `&labels=` and the labels fragment, assignee fragment, paging; it starts with `?` and ends with `&per_page=100&state=opened` |
| `GitLabURLHelper.FilteredIssuesQueryExample` | src/functions/GitLab/GitLabURLHelper.js:115-130 | token `t`, label `bug` and assignee 7 `alice` give `?access_token=t&labels=bug,&assignee_id=7&per_page=100&state=opened` |
| `GitLabURLHelper.FilteredIssuesURLOnHost` | src/functions/GitLab/GitLabURLHelper.js:97-140 | for `https://<host>/<namespace>/<project>` with token `t`, label `bug` and assignee 7 `alice`: the path and query that `GetGitLabAPIURLIssueFiltered` returns whenever it returns a value, `https://<host>/api/v4/projects/<namespace>%2F<project>/issues?access_token=t&labels=bug,&assignee_id=7&per_page=100&state=opened` |
| `GitLabURLHelper.Text` | src/functions/GitLab/GitLabURLHelper.js:132-136 | a value that may be `null`, as an operand of `+` whose other operand is a string: its text, or `null` |
| `GitLabURLHelper.Plus` | src/functions/GitLab/GitLabURLHelper.js:202-203 | `+` on two values that may be `null`: `0` when both are `null`, their concatenation otherwise |
| `GitLabURLHelper.ProjectAPIPath` | src/functions/GitLab/GitLabURLHelper.js:132-136 | `domain/api/v4/projects/<ns>%2F<proj>` when the domain resolves; for a GitHub URL that matches, `nullprojects/<ns>%2F<proj>`; for a URL that does not match, `nullprojects/null%2Fnull` |
| `GitLabURLHelper.GetGitLabAPIURLIssueFiltered` | src/functions/GitLab/GitLabURLHelper.js:97-140 | `null` exactly when the URL, token, label list or assignee fails its check; otherwise the project path, `/issues`, then the token fragment, `&labels=`, each valid label's name and `,`, `&assignee_id=<id>` when the assignee has a name, and `&per_page=100&state=opened`; when the domain resolves this is `…/projects/<ns>%2F<proj>/issues…` |
| `GitLabURLHelper.GetGitLabAPIURLIssueByNumber` | src/functions/GitLab/GitLabURLHelper.js:142-163 | `null` exactly when the URL, token or number fails its check; otherwise the project path, `/issues/<number>` and the token fragment, which is `…/projects/<ns>%2F<proj>/issues/<number>?…` when the domain resolves |
| `GitLabURLHelper.GetGitLabAPIURLLabel` | src/functions/GitLab/GitLabURLHelper.js:165-181 | `null` exactly when the URL is invalid; the token is not required. Otherwise the project path, `/labels`, the token fragment and `&per_page=100` |
| `GitLabURLHelper.GetGitLabAPIURLMember` | src/functions/GitLab/GitLabURLHelper.js:183-195 | `null` exactly when the URL is invalid; otherwise `domain/api/v4/groups/<ns>/members/all` plus the token fragment, with `null` in place of the API root for a GitHub URL and also in place of the namespace for a URL that does not match; the path is built without the project |
| `GitLabURLHelper.WebProjectPath` | src/functions/GitLab/GitLabURLHelper.js:202-205 | the project page `getGitLabURL(url) + namespace + '/' + project`: the git URL without its trailing `/` when the domain resolves; `null<ns>/<proj>` for a GitHub URL that matches; `0/null` for a URL that does not match, because `null + null` is `0` |
| `GitLabURLHelper.GetGitLabURLIssueByNumber` | src/functions/GitLab/GitLabURLHelper.js:197-209 | `null` exactly when the URL is invalid; otherwise the project page followed by `/-/issues/<number>`, where the project page is the git URL without its trailing `/` when the domain resolves |
| `GitLabURLHelper.WebPagesOfUnmatchedURL` | src/functions/GitLab/GitLabURLHelper.js:197-222 | for a valid URL that the pattern does not match, such as `https://example.com/a`, the issue page is `0/null/-/issues/<number>` and the new-issue page is `0/null/issues/new?issue[description]=` |
| `GitLabURLHelper.GetGitLabURLNewIssueWithTemplate` | src/functions/GitLab/GitLabURLHelper.js:211-222 | `null` exactly when the URL is invalid; otherwise the project page followed by `/issues/new?issue[description]=`, where the project page is the git URL without its trailing `/` when the domain resolves |

## Left out

- `isValidURL`, `isValidVariable` and `isValidIDName` come from `src/functions/Common/CommonHelper.js`, and `isGitHubURL` from `src/functions/GitHub/GitHubURLHelper.js`. Neither file is part of this model. The validators are uninterpreted fields of `Env`.
- Number-to-string conversion is the uninterpreted `Env.toStr`. Its decimal formatting is not modelled.
- The git URL is always a string. An absent (`null` or `undefined`) git URL, which the source passes to the validators, is not modelled.
- GetGitLabURLIssueByNumber takes the issue number as an integer, so a missing number, which JavaScript would print as `undefined`, is not modelled.
- GetGitLabAPIURLIssueFiltered takes the label list as a sequence. In the source, a value that passes `isValidVariable` but is not an array, such as an object or a string, makes `labels.map` throw a `TypeError`. That exception path is not modelled.
- Labels and assignees are records with an integer `id` and a `name`. JavaScript values of other shapes, such as `null` entries in the label list, are represented only through what `isValidIDName` answers for them.
- General regular-expression semantics are not modelled. JavaScript matches that pattern over UTF-16 code units; here strings are sequences of Unicode scalar values. Every `\s` character is a single code unit, so the match is the same.

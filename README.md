# GitLab accessor core, modelled in Dafny

This project models the part of `gitlabserver.go` that is more than a call
through to the GitLab client library. That part has four pieces:

- GitlabProjects plans the pages and merges them in fan-out. It reads a project
  count, plans `ceil(count / ITEMS_PER_PAGE)` pages and starts one goroutine
  per page. Each goroutine appends its page's items to a shared slice under a
  mutex, and the function waits on a WaitGroup.
- GitlabGroups follows a cursor. It reads a group count, asks for page 1 and
  follows `resp.NextPage` until it is 0. It appends each page and returns the
  first error.
- TopLevelGroups and ParentGroup read paths on Go `strings.Split` semantics.
  TopLevelGroups takes each group's first `/`-component of the text before the
  host, each kept once, in first-seen order. ParentGroup takes the
  `/`-component at index 1 of the text after the host in a project's WebURL.
- GetLatestCommit picks the latest commit: a client error, then a status
  other than 200, then an empty commit list, and otherwise the first commit's ID.

The client library is abstracted:

- ProjectCount / GroupCount become an input `count: Result<int>`.
- ListProjects becomes a total function `fetch` from a page number to the
  items it returns and its error.
- ListGroups becomes a function `list` from a page number to the items, the
  `NextPage` and the error.
- ListCommits becomes a value `CommitsCall` holding the commits, the status code
  and the error.

Go runtime panics are results:

- `make([]*T, 0, cap)` panics for a count that fails its range check. That is
  a negative count, or one above 2^45 on 64-bit Linux, where the runtime
  refuses more than 2^48 bytes and a pointer takes 8. Such a count is
  `Err(CapOutOfRange(cap))` before any request (`GitlabTypes.CapFits`).
- An index past the end of a split is `Err(IndexOutOfRange(i, len))`.

Modules:

- `GitlabTypes` (types.dfy): errors, `Option`, `Result`, and the record fields read.
- `GoStrings` (gostrings.dfy): `strings.Index`, `strings.Split` (including the
  empty separator, which splits into single characters) and `strings.Join`.
  Their lemmas state that Join inverts Split and what pieces 0 and 1 are.
- `Pagination` (pagination.dfy): imperative methods for GitlabProjects and
  GitlabGroups, proved against the functions `MergeInOrder`, `PageRange`,
  `Chain` and `Gathered`.
- `Hierarchy` (hierarchy.dfy): TopLevelGroups as a loop proved against
  `Dedup(Components(..))`, and ParentGroup as a function. Lemmas give their
  meaning and worked examples.
- `Commits` (commits.dfy): GetLatestCommit.

The goroutines finish in an order the scheduler picks. In GitlabProjects,
each iteration of the completion loop picks any running page
nondeterministically, and `completed` records the resulting order. Every
postcondition holds for every such order. The WaitGroup counter is a local
`wg`. It is set to the number of pages, stays there while the goroutines are
launched, and then equals the number of pages whose goroutine has not
finished. These are loop invariants of the method, and `wg` is 0 when it
returns. They are not part of its postcondition.

The Go loop in GitlabGroups has no bound. The caller supplies a ghost `fuel`
and must show that the walk from page 1 stops within that many requests.

### Where the code and its description disagree

Described as returning "the top level groups", TopLevelGroups reads as if it
took the component after the host: `"host/A/x"` with host `"host"` would give
`"A"`. The code takes piece 0 of the split, the text *before* the host. So for
that input it gives `""` (lemma `Hierarchy.TopLevelComponentHostFirstExample`).
The model follows the code. A real group FullPath such as `"GroupA/sub/project"`
holds no host name, so the code gives its first segment
(`Hierarchy.TopLevelComponentExample`).

ParentGroup is described as returning "the parent group" of a project. It
returns the "/"-component at index 1 after the host, which is the top-level
group. For a project in a subgroup these differ:
`"https://host/GroupA/sub/p"` gives `"GroupA"`, not the immediate parent
`"sub"` (lemma `Hierarchy.ParentGroupSubgroupExample`). The model follows the
code.

## Model

| member | source | states |
|---|---|---|
| GitlabTypes.CapFits | gitlabserver.go:108 | make([]*T, 0, cap) passes its range check exactly when the cap is not negative and its 8-byte pointers take at most maxAlloc (2^48) bytes; otherwise it panics |
| Pagination.PagesToCheck | gitlabserver.go:110 | the page count is 0 exactly when the count is 0; otherwise (pages-1)*100 < count <= pages*100, that is, the ceiling of count/100 |
| Pagination.PagesToCheckUnique | gitlabserver.go:110 | any page number that covers the count with no page left over equals PagesToCheck(count) |
| Pagination.PageRangeCounts | gitlabserver.go:114-118 | the launched pages contain each page index 1..n exactly once and nothing else |
| Pagination.GitlabProjects | gitlabserver.go:101-147 | a count error is returned before any fetch. A count that fails make's range check (negative, or above 2^45) is the make panic, with no fetch. Otherwise pages 1..pagesToCheck are launched in order, each completes exactly once, and the result is Ok. Its items are the pages appended in completion order, items of failed pages included. Whatever that order, it has the multiset of items of the pages in order 1..n and as many items as the pages returned |
| Pagination.MergeOrderIndependent | gitlabserver.go:132-144 | merging the same pages in any two orders (equal multisets of page indices) gives the same multiset of items |
| Pagination.MergeOrderLength | gitlabserver.go:132-144 | merging the same pages in any two orders gives slices of the same length |
| Pagination.MergeLength | gitlabserver.go:138 | the merged slice is as long as the sum of the page lengths |
| Pagination.MergeAppend | gitlabserver.go:138 | merging two runs of pages one after the other is the concatenation of their merges |
| Pagination.MergeRemove | gitlabserver.go:137-139 | taking one page out of an order removes exactly that page's items from the merged multiset |
| Pagination.ChainShape | gitlabserver.go:165-176 | a walk that finishes starts at its first page. Every page but the last succeeded with NextPage != 0, and the next request is exactly that NextPage. The last page failed or has NextPage == 0 |
| Pagination.GitlabGroups | gitlabserver.go:150-179 | a count error, or a count that fails make's range check, is returned with no request. Otherwise the pages requested are exactly the walk from page 1. If the last page requested failed, its error is returned (nothing after it is requested and what was gathered is dropped). Otherwise the result is all pages' items in visit order |
| GoStrings.IndexFrom | gitlabserver.go:187 | the first occurrence of the separator at or after a position, or -1 when none starts there or later |
| GoStrings.Index | gitlabserver.go:187 | strings.Index: the first occurrence, and -1 exactly when the separator does not occur |
| GoStrings.Explode | gitlabserver.go:187 | strings.Split with the empty separator yields one piece per character, piece k being the k-th character |
| GoStrings.Split | gitlabserver.go:187-188 | strings.Split gives at least one piece for a non-empty separator, and no pieces only for an empty string split by the empty separator |
| GoStrings.JoinSplit | gitlabserver.go:187-188 | strings.Join(strings.Split(s, sep), sep) == s for every s and sep |
| GoStrings.SplitPiecesFree | gitlabserver.go:187-188 | no piece of a split contains the separator |
| GoStrings.SplitFirst | gitlabserver.go:187-188 | piece 0 of a split is the text before the first occurrence of the separator, or all of it |
| GoStrings.SplitSecond | gitlabserver.go:199-200 | there is a piece 1 exactly when the separator occurs, and it runs from after the first occurrence up to the next |
| GoStrings.HeadFree | gitlabserver.go:187-188 | the text before the first occurrence has no occurrence, no occurrence starts inside it, and it ends at the separator or at the end |
| GoStrings.IndexIs | gitlabserver.go:187 | the first occurrence is at i when one starts at i and none starts before |
| Hierarchy.TopLevelComponent | gitlabserver.go:187-188 | a group's component fails exactly when the host and the FullPath are both empty (the fullPath[0] panic, index 0 of length 0) |
| Hierarchy.TopLevelComponentWithHost | gitlabserver.go:187-188 | for a non-empty host the component is the longest prefix of the FullPath in which neither "/" nor the host starts |
| Hierarchy.TopLevelComponentNoHost | gitlabserver.go:187-188 | for the empty host the component is the first character of the FullPath, or "" when that is "/" |
| Hierarchy.TopLevelGroups | gitlabserver.go:183-195 | panics (Err) exactly when some group's component cannot be read. Otherwise the result is the components of the groups, each kept at its first appearance. Empty input gives empty output |
| Hierarchy.TopLevelGroupsSpec | gitlabserver.go:184-194 | the output of TopLevelGroups has no duplicates, holds exactly the groups' components, and lists them in first-seen order |
| Hierarchy.DedupSpec | gitlabserver.go:189-191 | keeping each value at its first appearance leaves no duplicates, keeps every value of the input, and keeps first-seen order |
| Hierarchy.DedupStep | gitlabserver.go:189-191 | one more value is appended to the output exactly when slices.Contains says it is new, and the three properties above are kept |
| Hierarchy.ParentGroup | gitlabserver.go:198-203 | for a non-empty host: fails with the index panic (index 1, length 1) when the host does not occur in the WebURL, or when the text after it (up to the next host) has no "/"; otherwise it is that text's "/"-component at index 1. For the empty host: fails with index 1 of length the URL's length when the URL is shorter than 2, gives "" when its second character is "/", and fails with index 1 of length 1 otherwise |
| Hierarchy.ParentGroupExample | gitlabserver.go:198-203 | "https://host/GroupA/project1" with host "host" gives "GroupA" |
| Hierarchy.ParentGroupSubgroupExample | gitlabserver.go:197-203 | "https://host/GroupA/sub/p" with host "host" gives the top-level group "GroupA", not the immediate parent "sub" |
| Hierarchy.ParentGroupNoPathExample | gitlabserver.go:199-200 | "https://host" with host "host" has no piece 1 after the "/" split: index out of range |
| Hierarchy.TopLevelComponentExample | gitlabserver.go:187-188 | "GroupA/sub/project" with host "gitlab.example.com" gives "GroupA" |
| Hierarchy.TopLevelComponentHostFirst | gitlabserver.go:187-188 | for a non-empty host, a FullPath that starts with the host gives the empty text before it |
| Hierarchy.TopLevelComponentHostFirstExample | gitlabserver.go:187-188 | "host/A/x" with host "host" gives "", not "A" |
| GitlabTypes.FirstIndex | gitlabserver.go:189 | the position of a value's first appearance |
| Commits.GetLatestCommit | gitlabserver.go:206-222 | Ok exactly when there is no client error, the status is 200 and the list is non-empty, with commits[0].ID. The checks come in the code's order: client error, then UnexpectedStatus(code, 200), then "no commits" |

## Left out

- HTTP, authentication, the GitLab client library, and `client.Do`. Each
  client call is an input or an abstract total function from a page number to
  what the call returns.
- ProjectCount, GroupCount, UserCount, their `X-Total` header and its
  `strconv.Atoi`. The count is an input `Result<int>`.
- NewGitlabServer, and the server-side filters `Archived` and `TopLevelOnly`.
  They only change what the server returns, which the abstract fetcher already
  leaves open.
- Goroutines, `sync.Mutex` and `sync.WaitGroup` as primitives. Only their
  sequential effect is modelled: appends under the lock in a completion order
  picked nondeterministically, and a counter for the WaitGroup.
- Pagination.PagesToCheck uses integer ceiling division instead of
  `math.Ceil(float64(count) / 100)`. The two agree for every count below
  2^52: float64(count) is exact there, and a quotient that is not a whole
  number lies at least 1/100 away from a whole number, far more than the
  rounding error of a float64 division at that size. Every count at which
  the page count is computed is at most 2^45, because a larger one has
  already made `make` panic. So the two agree wherever the code gets that far.
- GitlabTypes.CapFits: the bound 2^45 is the one for 64-bit Linux (amd64 and
  arm64). A 32-bit platform, or one with a different maxAlloc, has a
  different bound; the model fixes the 64-bit Linux one.
- A count that passes make's range check can still ask for more memory than
  the machine has (2^40 pointers already take 8 TiB). Go then stops with a
  fatal "out of memory" error, which is not a panic. The model treats every
  count that passes the range check as allocated.
- The debug `fmt.Printf` lines. Also left out is the dereference of `resp`
  when a page fails (line 134), which panics if the client returns a nil
  response with the error. The model assumes a response is present, keeps the
  page's items and ignores its error, as line 138 does.
- Pagination.GitlabGroups: termination is assumed through the ghost `fuel`. A
  server whose NextPage chain never reaches 0 makes the Go loop run forever,
  and such a walk has no fuel that satisfies the precondition.
- GoStrings.Split: strings are sequences of characters, so the empty-separator
  split gives one piece per character where Go gives one per UTF-8 sequence.
  The two agree on ASCII text.
- The `*gitlab.Project` argument of ParentGroup and GetLatestCommit. Only its
  WebURL, and the result of ListCommits on its ID, are inputs.

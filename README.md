# mcp-arxiv: a Dafny model of the search and download tools

The server exposes two tools over the arXiv paper index. `search_papers`
turns its string sort arguments into the index's sort enums. It queries the
index and returns one flat record per result, in the index's order.
`download_paper` normalises a paper id, looks the paper up, derives a safe
file name from the id and the title, and stores the PDF in the storage
directory. It answers with one of three messages.

This project models that logic, all of which is in `main.py`:

- `sort_params.dfy` (module `SortParams`): the two keyword tables and their fall-backs.
- `strings.dfy` (module `Strings`): Python's `str.split` with a one-character separator, with `join` as its proved inverse. The id normalisation is written in terms of it.
- `paper_id.dfy` (module `PaperId`): `clean_id`, i.e. the last `/` segment, cut before its first `v` when it ends with `v`.
- `filenames.dfy` (module `Filenames`): `safe_title`, the file name `<clean_id>_<safe_title[:50]>.pdf`, and the stored path.
- `search.dfy` (module `Search`): the record-building loop of `search_papers`, as a method over an abstract index.
- `download.dfy` (module `Download`): the three outcome messages and `download_paper`, as a method over an abstract lookup and an abstract download call.
- `wrappers.dfy` (module `Wrappers`): `Option` and `Result`.

The index client, the PDF download and the environment are parameters:

- The search provider is a function from the request (query, limit, resolved sort criterion and order) to the stream it yields. The stream holds the results and, optionally, the exception raised after them.
- The lookup by id is a function from the normalised id to a found title, "no match" (`StopIteration`), or an exception message.
- `paper.download_pdf(dirpath, filename)` is a function from the directory and the file name to "returned normally" or an exception message.
- The storage directory is given as the string form of the configured path.

The comment at main.py:90 says `# handle version numbers`, but the guard
is `clean_id.endswith('v')`. So a versioned id such as `"2301.12345v2"` is
kept whole, and only an id that ends in `v`, such as `"2301.12345v"`, is
cut. The model follows the code; `PaperId.CleanIdKeepsNumberedVersion`
states the example.

The tool's default arguments are modelled as constants. `SortParams.DefaultSortBy` and
`SortParams.DefaultSortOrder` stand for main.py:24-25, and `Search.DefaultMaxResults` (10)
stands for main.py:23; a call that leaves `max_results` out is `SearchPapers` with that value.

## Model

| member | source | states |
|---|---|---|
| SortParams.SortCriterionOf | main.py:39-43 | "relevance" gives Relevance and "last_updated_date" gives LastUpdatedDate. Every other string gives SubmittedDate (each as an if-and-only-if). |
| SortParams.SortOrderOf | main.py:45-48 | "ascending" gives Ascending; every other string, "descending" included, gives Descending (both directions). |
| SortParams.SortCriterionKeywords | main.py:33-43 | Each criterion's documented keyword selects it. The table's keys are exactly the documented keywords. |
| SortParams.SortOrderKeywords | main.py:45-48 | Each order's documented keyword selects it. The table's keys are exactly the documented keywords. |
| SortParams.DefaultsAgreeWithFallbacks | main.py:24-48 | An unknown keyword and the default argument select the same criterion (SubmittedDate) and the same order (Descending). |
| Strings.Split | main.py:89 | `split` yields at least one piece, and no piece contains the separator. |
| Strings.JoinSplit | main.py:89 | Joining the pieces of `split` with the separator gives back the input. |
| Strings.SplitJoin | main.py:89 | Splitting a join of separator-free pieces gives back those pieces, so `split` and `join` are inverse. |
| Strings.SplitAtSep | main.py:89-91 | Splitting `a + sep + b` gives the pieces of `a` followed by the pieces of `b`. |
| Strings.LastPiece | main.py:89 | The last piece, `[-1]`, is a suffix of the input. It is the whole input when there is one piece, and otherwise preceded by the separator. |
| Strings.FirstPiece | main.py:91 | The first piece, `[0]`, is a prefix of the input. There are several pieces exactly when the separator occurs, and then the first piece is followed by it. |
| Strings.EndsWith | main.py:90 | `endswith('v')`: the string is non-empty and its last character is the given one. Used by the CleanId ensures, which state what the guard decides. |
| Strings.JoinAppend | main.py:89 | Joining two runs of pieces puts one separator between their joins. |
| Strings.JoinLast | main.py:89 | A join of at least two pieces is the join of all but the last, the separator, then the last piece. |
| Strings.JoinEndsWithLast | main.py:89 | The last piece ends the join, after a separator when there are several pieces. |
| Strings.SplitCountWithoutSep | main.py:89 | A string without the separator splits into a single piece. |
| PaperId.LastSegment | main.py:89 | The segment has no '/' and is a suffix of `paper_id`. It is all of `paper_id` when that has no '/', and otherwise it is preceded by a '/'. |
| PaperId.LastSegmentAfterSlash | main.py:89 | After a '/', a segment without '/' is what is kept. |
| PaperId.CleanId | main.py:89-91 | The result has no '/' and does not end with 'v'. A segment not ending in 'v' is kept unchanged. A segment ending in 'v' gives its prefix before its first 'v', which contains no 'v'. |
| PaperId.CleanIdIdempotent | main.py:89-91 | Normalising a normalised id returns it unchanged. |
| PaperId.CleanIdOfUrl | main.py:89-91 | For any URL prefix, `prefix/base` + `v...v` normalises to `base` when `base` has no 'v'. |
| PaperId.CleanIdOfPlainId | main.py:89-90 | An id without '/' that does not end in 'v' is already normalised, whatever 'v's it holds elsewhere. |
| PaperId.CleanIdOfBareId | main.py:89-91 | "2301.12345" stays "2301.12345". |
| PaperId.CleanIdKeepsNumberedVersion | main.py:90 | "2301.12345v2" stays "2301.12345v2", as the `endswith('v')` guard decides. |
| PaperId.CleanIdOfAbsUrl | main.py:89 | "https://arxiv.org/abs/2301.12345" gives "2301.12345". |
| PaperId.CleanIdOfAbsUrlTrailingV | main.py:89-91 | "https://arxiv.org/abs/2301.12345v" gives "2301.12345". |
| Filenames.SafeTitle | main.py:100 | `safe_title` has the title's length. At every index it holds the title's character if that is alphanumeric, and '_' otherwise. |
| Filenames.Take | main.py:101 | `s[:n]` is the prefix of `s` whose length is the smaller of `n` and `len(s)`. |
| Filenames.IsAlnum | main.py:100 | `c.isalnum()` on ASCII letters and digits. Its use is stated by SafeTitle and SafeTitleCharset. |
| Filenames.Filename | main.py:101 | The f-string `f"{clean_id}_{safe_title[:50]}.pdf"`. Its contract is FilenameShape: id, '_', at most 50 sanitised title characters, ".pdf", and no '/' when the id has none. |
| Filenames.JoinPath | main.py:102 | `STORAGE_PATH / filename` as a string. Its contract is JoinPathLastSegment: the joined path's last segment is the file name. |
| Filenames.SafeTitleCharset | main.py:100 | Every character of `safe_title` is alphanumeric or '_'. |
| Filenames.SafeTitleFixpoint | main.py:100 | A title is unchanged exactly when it holds only alphanumerics and '_'. Sanitising is idempotent. |
| Filenames.SafeTitleTake | main.py:100-101 | Truncating to n characters and sanitising commute. |
| Filenames.FilenameShape | main.py:101 | The name is `clean_id + "_" + part + ".pdf"`, where `part` sanitises the first at most 50 title characters. `part` is only alphanumerics and '_'. The length is at most `len(clean_id) + 55`. The name has no '/' when `clean_id` has none. |
| Filenames.FilenameIgnoresTitleTail | main.py:101 | Titles that agree on their first 50 characters give the same file name. |
| Filenames.JoinPathLastSegment | main.py:102 | Joining the storage path with a name without '/' gives a path whose last segment is that name. |
| Filenames.SavedPathNamesFile | main.py:100-102 | For every id and title, the file path's last segment is exactly the derived file name, so the file lies directly in the storage directory. |
| Search.DescribesUnique | main.py:64-74 | A result determines its record: two records that both describe it are equal. |
| Search.AuthorNames | main.py:67 | One name per author, in order. |
| Search.ToRecord | main.py:60-74 | The record carries every field of the result and the authors' names in order. The affiliation is present exactly when the raw dict has "arxiv_affiliation", and it is that value. |
| Search.Affiliation | main.py:60-62 | `r._raw.get("arxiv_affiliation")` when `_raw` is a dict, else None. Its contract is in ToRecord's ensures: present exactly when the raw dict has the key, and then that key's value. |
| Search.RequestOf | main.py:39-55 | The query, the limit unchanged and the two resolved sort values. Its contract is in SearchPapers' ensures: the provider is queried with this request. |
| Search.SearchPapers | main.py:36-78 | The provider is queried with the resolved sort criterion and order. Without an exception, there is exactly one record per result, in the same order, each describing its result (zero results give an empty list). An exception is passed on with no records. |
| Download.MessageInjective | main.py:107-111 | Different outcomes give different messages. The message determines the kind of outcome and its path, id or reason. |
| Download.DownloadPaper | main.py:88-111 | The lookup uses the normalised id. No match gives the not-found message with the original id. A lookup or download exception gives the failure message with its text. A successful download gives the success message with the storage path joined with the derived file name. `download_pdf` is called with the storage path and that same name. |
| Download.Message | main.py:107-111 | The three message f-strings. Its contract is MessageInjective: different outcomes give different messages. |
| Download.NotFoundEchoesInput | main.py:108-109 | The not-found message is "Error: Paper with ID " + the unnormalised `paper_id` + " not found.". |
| Download.SuccessNamesStoredFile | main.py:99-107 | The success message is the success prefix followed by the path. The path's last segment is the derived file name. |

## Left out

- The FastMCP server, tool registration and `mcp.run()` (main.py:10-13, 20, 80, 114-115): these are host-runtime plumbing.
- `arxiv.Client`, `arxiv.Search`, `client.results` and `paper.download_pdf` (main.py:36, 50-55, 93-97, 105): these are network and filesystem calls into an external library. They are parameters of the two methods. The PDF bytes written to disk are not modelled, and neither is whether the library honours `max_results`.
- `load_dotenv`, `os.getenv`, `Path.cwd` and `mkdir` (main.py:8, 16-17): this is environment and filesystem I/O. The storage path is a given string.
- `r.published.strftime("%Y-%m-%d")` (main.py:69): the date is an already formatted string.
- Filenames.SafeTitle: `str.isalnum` is approximated by ASCII letters and digits. Python also counts non-ASCII letters and digits as alphanumeric and keeps them; the model replaces them with '_'.
- Filenames.JoinPath: pathlib's `/` is modelled for a path that is already in pathlib's normalised string form ("." is dropped, a trailing '/' exists only for the root). Windows paths are not modelled.
- Search.ToRecord: the values of the raw dict are modelled as strings, and a key present with the value None is not told apart from a missing key.
- Download.DownloadPaper: a `StopIteration` raised by `download_pdf` itself would also be caught as "not found"; the model treats every download exception as a generic failure.

/** The file name and path a downloaded paper is stored under
    (main.py:100-102). */
module Filenames {
  import opened Strings
  import opened PaperId

  /** How many characters of the sanitised title go into a file name. */
  const TitleLimit: nat := 50

  /** `c.isalnum()`, restricted to ASCII letters and digits. */
  predicate IsAlnum(c: char) {
    ('a' <= c <= 'z') || ('A' <= c <= 'Z') || ('0' <= c <= '9')
  }

  /** `"".join([c if c.isalnum() else "_" for c in title])`. */
  function SafeTitle(title: string): (safe: string)
    ensures |safe| == |title|
    ensures forall i :: 0 <= i < |title| ==> safe[i] == (if IsAlnum(title[i]) then title[i] else '_')
  {
    if title == [] then []
    else [if IsAlnum(title[0]) then title[0] else '_'] + SafeTitle(title[1..])
  }

  /** Python's slice `s[:n]` for a non-negative `n`. */
  function Take(s: string, n: nat): (r: string)
    ensures |r| == if |s| < n then |s| else n
    ensures r == s[..|r|]
  {
    if |s| <= n then s else s[..n]
  }

  /** `f"{clean_id}_{safe_title[:50]}.pdf"`. */
  function Filename(cleanId: string, title: string): string {
    cleanId + "_" + Take(SafeTitle(title), TitleLimit) + ".pdf"
  }

  /** `str(STORAGE_PATH / filename)`, where `dir` is the string form of the
      storage path: pathlib leaves a name alone under ".", joins directly
      after a trailing '/' (the root), and puts one '/' between otherwise. */
  function JoinPath(dir: string, name: string): string {
    if dir == "" || dir == "." then name
    else if EndsWith(dir, '/') then dir + name
    else dir + "/" + name
  }

  /** Only letters, digits and '_' appear in a sanitised title. */
  lemma SafeTitleCharset(title: string)
    ensures forall i :: 0 <= i < |SafeTitle(title)| ==>
      IsAlnum(SafeTitle(title)[i]) || SafeTitle(title)[i] == '_'
  {
  }

  /** A title is left unchanged exactly when it holds only letters, digits
      and '_'; sanitising twice is sanitising once. */
  lemma SafeTitleFixpoint(title: string)
    ensures SafeTitle(title) == title <==> forall i :: 0 <= i < |title| ==> IsAlnum(title[i]) || title[i] == '_'
    ensures SafeTitle(SafeTitle(title)) == SafeTitle(title)
  {
  }

  /** Truncating and sanitising commute: the file name depends only on the
      first TitleLimit characters of the title. */
  lemma SafeTitleTake(title: string, n: nat)
    ensures Take(SafeTitle(title), n) == SafeTitle(Take(title, n))
  {
  }

  /** The shape of a file name: the id, '_', a sanitised title part of at
      most TitleLimit characters, and ".pdf"; it has no '/' when the id has
      none, so it names a file directly inside the storage directory. */
  lemma FilenameShape(cleanId: string, title: string)
    ensures var name := Filename(cleanId, title);
      var part := SafeTitle(Take(title, TitleLimit));
      && name == cleanId + "_" + part + ".pdf"
      && |part| == (if |title| < TitleLimit then |title| else TitleLimit)
      && (forall i :: 0 <= i < |part| ==> IsAlnum(part[i]) || part[i] == '_')
      && |name| <= |cleanId| + 55
      && name[..|cleanId| + 1] == cleanId + "_"
      && name[|name| - 4..] == ".pdf"
      && ('/' !in cleanId ==> '/' !in name)
  {
  }

  /** Two titles that agree on their first TitleLimit characters give the
      same file name. */
  lemma FilenameIgnoresTitleTail(cleanId: string, t1: string, t2: string)
    requires Take(t1, TitleLimit) == Take(t2, TitleLimit)
    ensures Filename(cleanId, t1) == Filename(cleanId, t2)
  {
  }

  /** The joined path ends with the name and, since the name has no '/',
      its last segment is exactly the name. */
  lemma JoinPathLastSegment(dir: string, name: string)
    requires '/' !in name
    ensures LastSegment(JoinPath(dir, name)) == name
  {
    if dir == "" || dir == "." {
    } else if EndsWith(dir, '/') {
      var init := dir[..|dir| - 1];
      assert dir + name == init + "/" + name;
      LastSegmentAfterSlash(init, name);
    } else {
      LastSegmentAfterSlash(dir, name);
    }
  }

  /** The path reported for a download is the storage directory joined with
      the file name, whatever the id and the title. */
  lemma SavedPathNamesFile(storage: string, paperId: string, title: string)
    ensures LastSegment(JoinPath(storage, Filename(CleanId(paperId), title))) == Filename(CleanId(paperId), title)
  {
    FilenameShape(CleanId(paperId), title);
    JoinPathLastSegment(storage, Filename(CleanId(paperId), title));
  }
}

/**
 * `os.path.split` and `os.path.join` with the POSIX rules (CPython's
 * `posixpath`), the separator being '/'.
 *
 *   split: cut after the last '/'; the head loses its trailing slashes
 *          unless it consists of slashes only.
 *   join:  append each component in turn; an absolute component (one that
 *          starts with '/') discards what was built so far, and a '/' is
 *          inserted only when the path built so far is non-empty and does
 *          not already end with one.
 */
module PosixPath {
  import opened Text

  const Sep: char := '/'

  predicate IsAbsolute(p: string) {
    |p| > 0 && p[0] == Sep
  }

  predicate AllSlashes(s: string) {
    forall i :: 0 <= i < |s| ==> s[i] == Sep
  }

  /** `s.rstrip('/')`. */
  function RStripSlashes(s: string): (r: string)
    ensures |r| <= |s| && r == s[..|r|]
    ensures AllSlashes(s[|r|..])
    ensures r == "" || r[|r| - 1] != Sep
    decreases |s|
  {
    if s != "" && s[|s| - 1] == Sep then
      var r := RStripSlashes(s[..|s| - 1]);
      assert s[|r|..] == s[..|s| - 1][|r|..] + [Sep];
      r
    else s
  }

  /** `posixpath.split(p)` as a pair (head, tail); the tail is everything after the last '/'. */
  function Split(p: string): (r: (string, string))
    ensures Sep !in r.1 && EndsWith(p, r.1)
    ensures var rest := p[..|p| - |r.1|]; rest == "" || rest[|rest| - 1] == Sep
  {
    var i := match LastIndexOf(p, Sep) case None => 0 case Some(k) => k + 1;
    var head, tail := p[..i], p[i..];
    if head != "" && !AllSlashes(head) then (RStripSlashes(head), tail) else (head, tail)
  }

  /**
   * The head of a split is what precedes the tail, less the separating
   * slashes, unless only slashes precede the tail.
   */
  lemma SplitHead(p: string)
    ensures var r := Split(p); var rest := p[..|p| - |r.1|];
      && |r.0| <= |rest| && r.0 == rest[..|r.0|]
      && AllSlashes(rest[|r.0|..])
      && (AllSlashes(rest) ==> r.0 == rest)
      && (!AllSlashes(rest) ==> r.0 != "" && r.0[|r.0| - 1] != Sep)
  {
    var i := match LastIndexOf(p, Sep) case None => 0 case Some(k) => k + 1;
    var head := p[..i];
    assert head == p[..|p| - |Split(p).1|];
    if head != "" && !AllSlashes(head) {
      assert head[0..] == head;
    }
  }

  /** One step of `posixpath.join`: append component `b` to `path`. */
  function JoinStep(path: string, b: string): (r: string)
    ensures EndsWith(r, b)
    ensures IsAbsolute(b) ==> r == b
    ensures !IsAbsolute(b) ==> |r| >= |path| && r[..|path|] == path
  {
    if IsAbsolute(b) then b
    else if path == "" || path[|path| - 1] == Sep then path + b
    else path + [Sep] + b
  }

  /** `posixpath.join(a, *parts)`: the components appended one after another. */
  function Join(a: string, parts: seq<string>): (r: string)
    ensures parts != [] ==> EndsWith(r, parts[|parts| - 1])
    ensures (forall i :: 0 <= i < |parts| ==> !IsAbsolute(parts[i])) ==> |r| >= |a| && r[..|a|] == a
    decreases |parts|
  {
    if parts == [] then a
    else
      var r := Join(JoinStep(a, parts[0]), parts[1..]);
      assert parts[1..] != [] ==> parts[1..][|parts[1..]| - 1] == parts[|parts| - 1];
      assert (forall i :: 0 <= i < |parts| ==> !IsAbsolute(parts[i]))
        ==> (forall i :: 0 <= i < |parts[1..]| ==> !IsAbsolute(parts[1..][i]));
      r
  }

  /**
   * Joining a relative, non-empty first component with two more components,
   * the last one relative: the cases `get_resized_path` meets.
   */
  lemma JoinThree(a: string, b: string, c: string)
    requires a != "" && a[|a| - 1] != Sep && !IsAbsolute(c)
    ensures Join(a, [b, c]) ==
      if b == "" then a + [Sep] + c
      else if IsAbsolute(b) then (if b[|b| - 1] == Sep then b + c else b + [Sep] + c)
      else if b[|b| - 1] == Sep then a + [Sep] + b + c
      else a + [Sep] + b + [Sep] + c
  {
    var ab := JoinStep(a, b);
    assert Join(a, [b, c]) == Join(ab, [c]) by { assert [b, c][1..] == [c]; }
    assert Join(ab, [c]) == JoinStep(ab, c) by { assert [c][1..] == []; }
    if b == "" {
      assert ab == a + [Sep];
    } else if !IsAbsolute(b) {
      assert ab == a + [Sep] + b;
    }
  }

  /** Both parts of a split are taken from the path, so a character absent from it is absent from them. */
  lemma SplitKeepsAbsentChar(p: string, c: char)
    requires c !in p
    ensures c !in Split(p).0 && c !in Split(p).1
  {
    SplitHead(p);
    var r := Split(p);
    var rest := p[..|p| - |r.1|];
    assert forall i :: 0 <= i < |r.1| ==> r.1[i] == p[|rest| + i];
    assert forall i :: 0 <= i < |r.0| ==> r.0[i] == p[i];
  }

  /**
   * The tail of a split is preceded by a single separating '/': what comes
   * before the tail is only slashes, or its last two characters are not both
   * '/'.
   */
  predicate SingleSeparator(p: string) {
    var rest := p[..|p| - |Split(p).1|];
    AllSlashes(rest) || |rest| < 2 || rest[|rest| - 2] != Sep
  }

  /** With a single separator, a head that is not all slashes was separated from the tail by one '/'. */
  lemma SplitDropsOneSlash(p: string)
    requires SingleSeparator(p)
    requires !AllSlashes(p[..|p| - |Split(p).1|])
    ensures p[..|p| - |Split(p).1|] == Split(p).0 + [Sep]
  {
    SplitHead(p);
    var r := Split(p);
    var rest := p[..|p| - |r.1|];
    var slashes := rest[|r.0|..];
    assert rest == r.0 + slashes;
    assert |slashes| >= 1;
    assert |slashes| == 1;
    assert slashes == [Sep];
  }

  /** A join with one component is one join step. */
  lemma JoinOne(a: string, b: string)
    ensures Join(a, [b]) == JoinStep(a, b)
  {
    assert [b][1..] == [];
  }

  /** With a single separator, joining the two parts of a split gives the path back. */
  lemma SplitJoinWithSingleSeparator(p: string)
    requires SingleSeparator(p)
    ensures Join(Split(p).0, [Split(p).1]) == p
  {
    SplitHead(p);
    var r := Split(p);
    var rest := p[..|p| - |r.1|];
    assert p == rest + r.1;
    JoinOne(r.0, r.1);
    if !AllSlashes(rest) {
      SplitDropsOneSlash(p);
    }
  }

  /** Otherwise the separating run of slashes shrinks to one and the join is shorter than the path. */
  lemma SplitJoinShortens(p: string)
    requires !SingleSeparator(p)
    ensures |Join(Split(p).0, [Split(p).1])| < |p|
  {
    SplitHead(p);
    var r := Split(p);
    var rest := p[..|p| - |r.1|];
    JoinOne(r.0, r.1);
    assert r.0[|r.0| - 1] == rest[|r.0| - 1];
    assert |r.0| <= |rest| - 2;
  }

  /**
   * Joining the two parts of a split gives the path back exactly when the
   * tail was preceded by a single separator.
   */
  lemma SplitJoinRoundTrip(p: string)
    ensures Join(Split(p).0, [Split(p).1]) == p <==> SingleSeparator(p)
  {
    if SingleSeparator(p) {
      SplitJoinWithSingleSeparator(p);
    } else {
      SplitJoinShortens(p);
    }
  }

  /** No two consecutive slashes. */
  predicate NoDoubleSlash(p: string) {
    forall i, j :: 0 <= i < |p| && j == i + 1 && j < |p| ==> !(p[i] == Sep && p[j] == Sep)
  }

  lemma NoDoubleSlashAt(p: string, k: nat)
    requires NoDoubleSlash(p) && k + 1 < |p|
    ensures !(p[k] == Sep && p[k + 1] == Sep)
  {
  }

  /** A path without doubled slashes has a single separator before its tail. */
  lemma NoDoubleSlashSingleSeparator(p: string)
    requires NoDoubleSlash(p)
    ensures SingleSeparator(p)
  {
    var rest := p[..|p| - |Split(p).1|];
    if |rest| >= 2 {
      NoDoubleSlashAt(p, |rest| - 2);
    }
  }
}

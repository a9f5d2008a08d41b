/** Path strings: Go's `strings.Split` and `strings.TrimRight` on '/', and
    the editing of the session's cursor path. */
module Paths {
  import opened Outcomes
  import opened Search

  const SLASH: char := '/'

  predicate IsSlash(ch: char) {
    ch == SLASH
  }

  predicate NoSlash(s: string) {
    forall i :: 0 <= i < |s| ==> s[i] != SLASH
  }

  /** `strings.Join(parts, "/")`. */
  function Join(parts: seq<string>): string
    requires |parts| > 0
  {
    if |parts| == 1 then parts[0] else parts[0] + [SLASH] + Join(parts[1..])
  }

  /** `strings.Split(s, "/")`: the pieces between separators, always at least
      one (the empty string splits into one empty piece). */
  function Split(s: string): (r: seq<string>)
    ensures |r| > 0
    ensures forall k :: 0 <= k < |r| ==> NoSlash(r[k])
    ensures Join(r) == s
    decreases |s|
  {
    match FirstWhere(s, IsSlash)
    case None => [s]
    case Some(i) =>
      var head := s[..i];
      var rest := Split(s[i + 1..]);
      assert s == head + [SLASH] + s[i + 1..];
      [head] + rest
  }

  /** The first piece is empty exactly when the string is empty or starts
      with a separator. */
  lemma SplitHead(s: string)
    ensures Split(s)[0] == "" <==> (s == "" || s[0] == SLASH)
  {
    if |s| > 0 && s[0] == SLASH {
      assert IsFirst(s, IsSlash, 0);
      FirstWhereIs(s, IsSlash, 0);
    }
  }

  /** A string without separators splits into itself alone. */
  lemma SplitSingle(s: string)
    requires NoSlash(s)
    ensures Split(s) == [s]
  {
    FirstWhereNone(s, IsSlash);
  }

  /** `strings.TrimRight(s, "/")`. */
  function TrimSlashes(s: string): (r: string)
    ensures |r| <= |s| && r == s[..|r|]
    ensures |r| > 0 ==> r[|r| - 1] != SLASH
    ensures forall i :: |r| <= i < |s| ==> s[i] == SLASH
  {
    if |s| > 0 && s[|s| - 1] == SLASH then TrimSlashes(s[..|s| - 1]) else s
  }

  /** A path that starts with '/' still starts with '/' after trimming, unless
      it was nothing but separators. */
  lemma TrimKeepsLeadingSlash(s: string)
    requires |s| > 0 && s[0] == SLASH
    ensures TrimSlashes(s) == "" || TrimSlashes(s)[0] == SLASH
  {
  }

  /** Index of the last separator of `s`, if any. */
  function LastSlash(s: string): (r: Option<nat>)
    ensures r.Some? ==> r.value < |s| && s[r.value] == SLASH && NoSlash(s[r.value + 1..])
    ensures r.None? ==> NoSlash(s)
  {
    if |s| == 0 then None
    else if s[|s| - 1] == SLASH then Some(|s| - 1)
    else LastSlash(s[..|s| - 1])
  }

  /** SetCurrentPath: the cursor path after a directory change by `arg`.
      `/` resets it, `.` keeps it, `..` drops the last component (unless at
      `/`), anything else is appended with a trailing '/'. */
  function NextPath(current: string, arg: string): string
    requires arg == ".." && current != "/" ==> current != ""
  {
    if arg == "/" then "/"
    else if arg == "." then current
    else if arg == ".." then
      if current == "/" then current
      else
        var cut := current[..|current| - 1];
        match LastSlash(cut)
        case Some(i) => cut[..i + 1]
        case None => cut
    else current + arg + "/"
  }

  /** The shape every cursor path keeps: it starts and ends with '/'. */
  predicate PathShape(p: string) {
    |p| > 0 && p[0] == SLASH && p[|p| - 1] == SLASH
  }

  lemma NextPathKeepsShape(current: string, arg: string)
    requires PathShape(current)
    ensures PathShape(NextPath(current, arg))
  {
    if arg == ".." && current != "/" {
      var cut := current[..|current| - 1];
      assert |cut| > 0;
      assert cut[0] == SLASH;
      assert LastSlash(cut).Some?;
    }
  }

  /** Entering a directory and then `..` restores the cursor path. */
  lemma EnterThenLeave(current: string, name: string)
    requires PathShape(current)
    requires NoSlash(name) && name != "." && name != ".."
    ensures NextPath(NextPath(current, name), "..") == current
  {
    var next := current + name + "/";
    assert NextPath(current, name) == next;
    var cut := next[..|next| - 1];
    assert cut == current + name;
    assert NoSlash(cut[|current|..]) by { assert cut[|current|..] == name; }
    assert LastSlash(cut) == Some(|current| - 1) by {
      LastSlashAt(cut, |current| - 1);
    }
    assert cut[..|current|] == current;
  }

  lemma {:induction false} LastSlashAt(s: string, i: nat)
    requires i < |s| && s[i] == SLASH && NoSlash(s[i + 1..])
    ensures LastSlash(s) == Some(i)
    decreases |s|
  {
    if s[|s| - 1] != SLASH {
      assert i < |s| - 1;
      assert s[..|s| - 1][i + 1..] == s[i + 1..|s| - 1];
      LastSlashAt(s[..|s| - 1], i);
    } else {
      assert i == |s| - 1;
    }
  }
}

/** How `GitHandler.listBranches` (local-server/git-handler.js) turns the
    standard output of `git branch`, `git branch --show-current` and
    `git branch -r` into the local, remote and combined branch lists. */
module BranchListing {
  import opened Outcomes
  import opened Strings

  datatype Listing = Listing(
    current: string,
    local: seq<string>,
    remote: seq<string>,
    all: seq<string>,
    count: nat)

  /** `p` is what `^\*?\s*` matches at the start of a line: an optional `*`
      followed by white space. */
  predicate MarkerAndPadding(p: string) {
    forall k :: 0 <= k < |p| ==> (IsSpace(p[k]) || (k == 0 && p[k] == '*'))
  }

  /** `line[i..j]` is what is left of a `git branch` line once the marker,
      its padding and the trailing white space are gone. */
  predicate EntryBounds(line: string, i: nat, j: nat) {
    && i <= j <= |line|
    && MarkerAndPadding(line[..i]) && (|line| > 0 && line[0] == '*' ==> i > 0)
    && forall k :: j <= k < |line| ==> IsSpace(line[k])
  }

  /** One line of `git branch` with the pattern `^\*?\s*` removed and then
      trimmed: what is left is the line between the checked-out marker with
      its padding and the trailing white space. */
  function LocalEntry(line: string): (r: string)
    ensures Trimmed(r)
    ensures r != "" ==> Contains(line, r)
  {
    var a := AfterMarker(line);
    var t := TrimStart(a);
    TrimAfterTrimStart(t);
    var r := Trim(t);
    EntryIsInfix(line, a, t, r);
    r
  }

  /** The entry is exactly the line between the marker with its padding and
      the trailing white space. */
  lemma LocalEntryBounds(line: string)
    ensures exists i: nat, j: nat :: EntryBounds(line, i, j) && LocalEntry(line) == line[i..j]
  {
    var a := AfterMarker(line);
    var t := TrimStart(a);
    TrimAfterTrimStart(t);
    EntryIsInfix(line, a, t, Trim(t));
  }

  /** The line without its marker, then without leading space, then without
      trailing space, is a piece of the line within the entry's bounds. */
  lemma EntryIsInfix(line: string, a: string, t: string, r: string)
    requires |a| <= |line| && a == line[|line| - |a|..]
    requires |line| > 0 && line[0] == '*' ==> |a| == |line| - 1
    requires !(|line| > 0 && line[0] == '*') ==> a == line
    requires |t| <= |a| && t == a[|a| - |t|..]
    requires forall k :: 0 <= k < |a| - |t| ==> IsSpace(a[k])
    requires |r| <= |t| && r == t[..|r|]
    requires forall k :: |r| <= k < |t| ==> IsSpace(t[k])
    ensures exists i: nat, j: nat :: EntryBounds(line, i, j) && r == line[i..j]
    ensures r != "" ==> Contains(line, r)
  {
    var i := |line| - |t|;
    assert line[i..] == t;
    MarkerThenSpace(line, a, t);
    PieceBeforeSpace(line, i, t, r);
    assert EntryBounds(line, i, i + |r|);
    if r != "" {
      ContainsAt(line, r, i);
    }
  }

  /** What lies before the trimmed text is the marker and its padding. */
  lemma MarkerThenSpace(line: string, a: string, t: string)
    requires |a| <= |line| && a == line[|line| - |a|..]
    requires |line| > 0 && line[0] == '*' ==> |a| == |line| - 1
    requires !(|line| > 0 && line[0] == '*') ==> a == line
    requires |t| <= |a|
    requires forall k :: 0 <= k < |a| - |t| ==> IsSpace(a[k])
    ensures MarkerAndPadding(line[..|line| - |t|])
  {
    var i := |line| - |t|;
    var m := |line| - |a|;
    forall k | 0 <= k < i ensures IsSpace(line[..i][k]) || (k == 0 && line[..i][k] == '*') {
      if k >= m {
        assert line[k] == a[k - m];
      }
    }
  }

  /** The line without its checked-out marker. */
  function AfterMarker(line: string): (a: string)
    ensures |a| <= |line| && a == line[|line| - |a|..]
    ensures |line| > 0 && line[0] == '*' ==> |a| == |line| - 1
    ensures !(|line| > 0 && line[0] == '*') ==> a == line
  {
    if |line| > 0 && line[0] == '*' then line[1..] else line
  }

  /** A prefix of the suffix `line[i..]` that is followed only by white space
      is a piece of the line followed only by white space. */
  lemma PieceBeforeSpace(line: string, i: nat, t: string, r: string)
    requires i + |t| == |line| && line[i..] == t
    requires |r| <= |t| && r == t[..|r|]
    requires forall k :: |r| <= k < |t| ==> IsSpace(t[k])
    ensures r == line[i..i + |r|]
    ensures forall k :: i + |r| <= k < |line| ==> IsSpace(line[k])
  {
    forall k | i + |r| <= k < |line| ensures IsSpace(line[k]) {
      assert line[k] == t[k - i];
    }
  }

  /** Text without leading space is trimmed at its end only. */
  lemma {:induction false} TrimAfterTrimStart(t: string)
    requires |t| == 0 || !IsSpace(t[0])
    ensures Trim(t) == TrimEnd(t)
    decreases |t|
  {
    if |t| > 0 && IsSpace(t[|t| - 1]) {
      TrimAfterTrimStart(t[..|t| - 1]);
    }
  }

  /** The origin remote's prefix, which `replace(/^origin\//, '')` strips. */
  const OriginPrefix := "origin/"

  /** One line of `git branch -r`, trimmed and with a leading `origin/` removed;
      names under any other remote keep their prefix. */
  function RemoteEntry(line: string): (r: string)
    ensures OriginPrefix <= Trim(line) ==> Trim(line) == OriginPrefix + r
    ensures !(OriginPrefix <= Trim(line)) ==> r == Trim(line)
  {
    var t := Trim(line);
    if OriginPrefix <= t then t[|OriginPrefix|..] else t
  }

  /** The entries of the lines of `git branch`, before blank ones are dropped. */
  function LocalEntries(lines: seq<string>): (r: seq<string>)
    ensures |r| == |lines| && forall i :: 0 <= i < |lines| ==> r[i] == LocalEntry(lines[i])
  {
    seq(|lines|, i requires 0 <= i < |lines| => LocalEntry(lines[i]))
  }

  /** The entries of the lines of `git branch -r`, before filtering. */
  function RemoteEntries(lines: seq<string>): (r: seq<string>)
    ensures |r| == |lines| && forall i :: 0 <= i < |lines| ==> r[i] == RemoteEntry(lines[i])
  {
    seq(|lines|, i requires 0 <= i < |lines| => RemoteEntry(lines[i]))
  }

  /** `a` is `b` with some elements left out: its elements occur in `b` in
      the same order. */
  predicate Subsequence(a: seq<string>, b: seq<string>)
    decreases |b|
  {
    if |a| == 0 then true
    else if |b| == 0 then false
    else (a[0] == b[0] && Subsequence(a[1..], b[1..])) || Subsequence(a, b[1..])
  }

  /** `filter(branch => branch.length > 0)`: the non-empty entries, in order,
      each as often as it occurs. */
  function NonBlank(xs: seq<string>): (r: seq<string>)
    ensures Subsequence(r, xs)
    ensures forall b :: b in r <==> b in xs && b != ""
    ensures forall b :: b != "" ==> multiset(r)[b] == multiset(xs)[b]
  {
    if |xs| == 0 then []
    else
      var rest := NonBlank(xs[1..]);
      assert xs == [xs[0]] + xs[1..];
      if xs[0] == "" then rest
      else
        var r := [xs[0]] + rest;
        assert r[1..] == rest;
        r
  }

  /** `filter(branch => branch.length > 0 && !branch.includes('HEAD'))`: the
      entries that pass, in order, each as often as it occurs. */
  function NonBlankWithoutHead(xs: seq<string>): (r: seq<string>)
    ensures Subsequence(r, xs)
    ensures forall b :: b in r <==> b in xs && b != "" && !Contains(b, "HEAD")
    ensures forall b :: b != "" && !Contains(b, "HEAD") ==> multiset(r)[b] == multiset(xs)[b]
  {
    if |xs| == 0 then []
    else
      var rest := NonBlankWithoutHead(xs[1..]);
      assert xs == [xs[0]] + xs[1..];
      if xs[0] == "" || Contains(xs[0], "HEAD") then rest
      else
        var r := [xs[0]] + rest;
        assert r[1..] == rest;
        r
  }

  /** The local branch names listed by `git branch`: the non-blank lines with
      their marker and padding removed, in the order printed. */
  function LocalBranches(stdout: string): (r: seq<string>)
    ensures Subsequence(r, LocalEntries(Split(stdout, '\n')))
    ensures forall b :: b in r <==> b in LocalEntries(Split(stdout, '\n')) && b != ""
    ensures forall b :: b != "" ==> multiset(r)[b] == multiset(LocalEntries(Split(stdout, '\n')))[b]
  {
    NonBlank(LocalEntries(Split(stdout, '\n')))
  }

  /** Every local branch name is non-blank, trimmed, and text that `git branch`
      printed. */
  lemma LocalBranchesOccurInOutput(stdout: string)
    ensures forall b :: b in LocalBranches(stdout) ==> b != "" && Trimmed(b) && Contains(stdout, b)
  {
    var lines := Split(stdout, '\n');
    var entries := LocalEntries(lines);
    var names := LocalBranches(stdout);
    forall b | b in names ensures b != "" && Trimmed(b) && Contains(stdout, b) {
      assert b in entries;
      var i :| 0 <= i < |entries| && entries[i] == b;
      EntryOccurs(lines, i);
    }
  }

  lemma EntryOccurs(lines: seq<string>, i: nat)
    requires i < |lines|
    ensures var e := LocalEntry(lines[i]);
            Trimmed(e) && (e != "" ==> Contains(Join(lines, '\n'), e))
  {
    var e := LocalEntry(lines[i]);
    if e != "" {
      JoinContainsPiece(lines, '\n', i);
      ContainsTrans(Join(lines, '\n'), lines[i], e);
    }
  }

  /** The remote branch names listed by `git branch -r`; `None` when the
      command failed, which yields no remote branches. */
  function RemoteBranches(stdout: Option<string>): (r: seq<string>)
    ensures forall b :: b in r ==> b != "" && !Contains(b, "HEAD")
    ensures stdout.None? ==> r == []
    ensures stdout.Some? ==> Subsequence(r, RemoteEntries(Split(stdout.value, '\n')))
    ensures stdout.Some? ==>
              forall b :: b != "" && !Contains(b, "HEAD")
                ==> multiset(r)[b] == multiset(RemoteEntries(Split(stdout.value, '\n')))[b]
  {
    match stdout
    case None => []
    case Some(out) => NonBlankWithoutHead(RemoteEntries(Split(out, '\n')))
  }

  predicate NoDuplicates(xs: seq<string>) {
    forall i, j :: 0 <= i < j < |xs| ==> xs[i] != xs[j]
  }

  /** Position of the first occurrence of `x` in `xs`. */
  function FirstIndex(xs: seq<string>, x: string): (k: nat)
    requires x in xs
    ensures k < |xs| && xs[k] == x
    ensures forall j :: 0 <= j < k ==> xs[j] != x
  {
    if xs[0] == x then 0 else 1 + FirstIndex(xs[1..], x)
  }

  /** A first occurrence in a prefix is the first occurrence in the whole. */
  lemma FirstIndexPrefix(xs: seq<string>, n: nat, x: string)
    requires n <= |xs| && x in xs[..n]
    ensures x in xs && FirstIndex(xs, x) == FirstIndex(xs[..n], x)
  {
    var k := FirstIndex(xs[..n], x);
    assert xs[k] == x;
  }

  /** `[...new Set(xs)]`: each distinct element once, in order of first occurrence. */
  function Dedupe(xs: seq<string>): (r: seq<string>)
    ensures forall x :: x in r <==> x in xs
    ensures NoDuplicates(r)
    ensures forall i, j :: 0 <= i < j < |r| ==> FirstIndex(xs, r[i]) < FirstIndex(xs, r[j])
  {
    if |xs| == 0 then []
    else
      var init := xs[..|xs| - 1];
      var last := xs[|xs| - 1];
      var d := Dedupe(init);
      assert xs == init + [last];
      forall x | x in d
        ensures FirstIndex(xs, x) == FirstIndex(init, x) && FirstIndex(xs, x) < |xs| - 1
      {
        FirstIndexPrefix(xs, |xs| - 1, x);
      }
      if last in d then d
      else
        assert FirstIndex(xs, last) == |xs| - 1;
        d + [last]
  }

  /** The listing built from the three commands' standard output. */
  function MakeListing(branchOut: string, currentOut: string, remoteOut: Option<string>): (l: Listing)
    ensures l.current == Trim(currentOut)
    ensures l.local == LocalBranches(branchOut) && l.remote == RemoteBranches(remoteOut)
    ensures forall b :: b in l.all <==> b in l.local || b in l.remote
    ensures NoDuplicates(l.all)
    ensures l.count == |l.all|
    ensures l.all == Dedupe(l.local + l.remote)
    ensures remoteOut.None? ==> l.all == Dedupe(l.local)
  {
    var local := LocalBranches(branchOut);
    var remote := RemoteBranches(remoteOut);
    var all := Dedupe(local + remote);
    assert remoteOut.None? ==> local + remote == local;
    Listing(Trim(currentOut), local, remote, all, |all|)
  }

  /** Local names keep their order of appearance in `all`, ahead of every
      remote-only name. */
  lemma LocalNamesComeFirst(l: seq<string>, r: seq<string>, x: string, y: string)
    requires x in l && y in r && y !in l
    ensures var all := Dedupe(l + r);
            x in all && y in all
            && forall i, j :: 0 <= i < |all| && 0 <= j < |all| && all[i] == x && all[j] == y ==> i < j
  {
    var xs := l + r;
    var all := Dedupe(xs);
    FirstIndexPrefix(xs, |l|, x);
    assert xs[..|l|] == l;

  }
}

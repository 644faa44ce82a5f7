/** `sanitizeBranchName`, identical in chrome-extension/src/background.js and
    chrome-extension/background.js: the generated text is lower-cased, trimmed,
    reduced to the characters `[a-z0-9-/]`, given a `feat/` type when it has
    none, and cut down when longer than sixty characters. */
module BranchNames {
  import opened Strings

  /** The characters the cleaning step keeps: `[a-z0-9\-\/]`. */
  predicate Allowed(c: char) {
    ('a' <= c <= 'z') || ('0' <= c <= '9') || c == '-' || c == '/'
  }

  predicate AllAllowed(s: string) {
    forall k :: 0 <= k < |s| ==> Allowed(s[k])
  }

  /** No two hyphens stand next to each other. */
  predicate NoDoubleHyphen(s: string) {
    forall k :: 0 <= k < |s| - 1 ==> !(s[k] == '-' && s[k + 1] == '-')
  }

  /** Neither the first nor the last character is a hyphen. */
  predicate NoEdgeHyphen(s: string) {
    |s| == 0 || (s[0] != '-' && s[|s| - 1] != '-')
  }

  /** The text with every hyphen removed. */
  function NonHyphens(s: string): (r: string)
    ensures |r| <= |s|
    ensures '-' !in r
  {
    if |s| == 0 then ""
    else (if s[0] == '-' then "" else [s[0]]) + NonHyphens(s[1..])
  }

  /** `replace(/[^a-z0-9\-\/]/g, '-')`. */
  function ReplaceDisallowed(s: string): (r: string)
    ensures |r| == |s| && AllAllowed(r)
    ensures forall k :: 0 <= k < |s| && Allowed(s[k]) ==> r[k] == s[k]
    ensures forall k :: 0 <= k < |s| && !Allowed(s[k]) ==> r[k] == '-'
  {
    seq(|s|, k requires 0 <= k < |s| => if Allowed(s[k]) then s[k] else '-')
  }

  /** The characters of `s` read position by position, dropping each hyphen
      that directly follows a hyphen; `afterHyphen` says whether the character
      before `s` was one. */
  function RunHeads(s: string, afterHyphen: bool): string
  {
    if |s| == 0 then ""
    else (if s[0] == '-' && afterHyphen then "" else [s[0]]) + RunHeads(s[1..], s[0] == '-')
  }

  /** `replace(/-+/g, '-')`: every run of hyphens becomes one hyphen, so the
      result keeps exactly the characters that are not a hyphen following a
      hyphen, in order. A run stays at either end exactly when one was there. */
  function CollapseHyphens(s: string): (r: string)
    ensures r == RunHeads(s, false)
    ensures |r| <= |s| && (|r| == 0 <==> |s| == 0)
    ensures NoDoubleHyphen(r)
    ensures |s| > 0 ==> (r[0] == '-' <==> s[0] == '-')
    ensures |s| > 0 ==> (r[|r| - 1] == '-' <==> s[|s| - 1] == '-')
  {
    if |s| <= 1 then s
    else if s[0] == '-' && s[1] == '-' then
      assert s[1..][1..] == s[2..];
      assert RunHeads(s[1..], true) == RunHeads(s[2..], true);
      CollapseHyphens(s[1..])
    else
      var rest := CollapseHyphens(s[1..]);
      var r := [s[0]] + rest;
      assert r[1..] == rest;
      assert RunHeads(s[1..], s[0] == '-') == RunHeads(s[1..], false) by {
        assert s[1..][0] == s[1];
      }
      r
  }

  /** Collapsing removes hyphens only: the other characters are the same, in
      the same order. */
  lemma {:induction false} CollapseKeepsText(s: string)
    ensures NonHyphens(CollapseHyphens(s)) == NonHyphens(s)
    decreases |s|
  {
    if |s| <= 1 {
    } else if s[0] == '-' && s[1] == '-' {
      CollapseKeepsText(s[1..]);
      assert NonHyphens(s) == NonHyphens(s[1..]);
    } else {
      var rest := CollapseHyphens(s[1..]);
      var r := [s[0]] + rest;
      CollapseKeepsText(s[1..]);
      assert r[1..] == rest;
      assert NonHyphens(r) == (if s[0] == '-' then "" else [s[0]]) + NonHyphens(rest);
    }
  }

  /** Collapsing adds no character. */
  lemma {:induction false} CollapseAddsNothing(s: string)
    ensures forall c :: c in CollapseHyphens(s) ==> c in s
    decreases |s|
  {
    if |s| > 1 {
      CollapseAddsNothing(s[1..]);
    }
  }

  /** Text with no hyphen run is left alone. */
  lemma {:induction false} CollapseFixesSingleHyphens(s: string)
    requires NoDoubleHyphen(s)
    ensures CollapseHyphens(s) == s
    decreases |s|
  {
    if |s| > 1 {
      forall k | 0 <= k < |s[1..]| - 1 ensures !(s[1..][k] == '-' && s[1..][k + 1] == '-') {
        assert s[1..][k] == s[k + 1] && s[1..][k + 1] == s[k + 2];
      }
      CollapseFixesSingleHyphens(s[1..]);
    }
  }

  /** `replace(/^-|-$/g, '')`: one hyphen removed from the front and one from
      the back. */
  function StripEdgeHyphens(s: string): (r: string)
    ensures var i := if |s| > 0 && s[0] == '-' then 1 else 0;
            var j := if |s| > i && s[|s| - 1] == '-' then |s| - 1 else |s|;
            r == s[i..j]
    ensures NonHyphens(r) == NonHyphens(s)
    ensures |r| <= |s|
    ensures exists i :: 0 <= i <= |s| && r <= s[i..]
    ensures NoDoubleHyphen(s) ==> NoDoubleHyphen(r) && NoEdgeHyphen(r)
    ensures NoEdgeHyphen(s) ==> r == s
  {
    var i := if |s| > 0 && s[0] == '-' then 1 else 0;
    var j := if |s| > i && s[|s| - 1] == '-' then |s| - 1 else |s|;
    EdgesHoldNoText(s, i, j);
    assert s[i..j] <= s[i..];
    s[i..j]
  }

  /** What lies outside `s[i..j]` is at most one hyphen at each end. */
  lemma EdgesHoldNoText(s: string, i: nat, j: nat)
    requires i <= j <= |s|
    requires i == 0 || (i == 1 && s[0] == '-')
    requires j == |s| || (j == |s| - 1 && s[j] == '-')
    ensures NonHyphens(s[i..j]) == NonHyphens(s)
  {
    assert s == s[..i] + s[i..j] + s[j..];
    NonHyphensAppend(s[..i] + s[i..j], s[j..]);
    NonHyphensAppend(s[..i], s[i..j]);
    if i == 1 {
      assert NonHyphens(s[..i]) == NonHyphens(s[..i][1..]);
    }
    if j < |s| {
      assert NonHyphens(s[j..]) == NonHyphens(s[j..][1..]);
    }
  }

  lemma {:induction false} NonHyphensAppend(a: string, b: string)
    ensures NonHyphens(a + b) == NonHyphens(a) + NonHyphens(b)
    decreases |a|
  {
    if |a| == 0 {
      assert a + b == b;
    } else {
      assert (a + b)[1..] == a[1..] + b;
      NonHyphensAppend(a[1..], b);
    }
  }

  /** The cleaned text: lower-cased, trimmed, disallowed characters replaced,
      hyphen runs collapsed, edge hyphens removed. */
  function Clean(raw: string): (c: string)
    ensures NonHyphens(c) == NonHyphens(ReplaceDisallowed(Trim(ToLowerAscii(raw))))
    ensures |c| <= |raw|
    ensures AllAllowed(c)
    ensures NoDoubleHyphen(c) && NoEdgeHyphen(c)
  {
    var replaced := ReplaceDisallowed(Trim(ToLowerAscii(raw)));
    var collapsed := CollapseHyphens(replaced);
    CollapseAddsNothing(replaced);
    CollapseKeepsText(replaced);
    AllowedSurvives(replaced, collapsed);
    var c := StripEdgeHyphens(collapsed);
    AllowedPiece(collapsed, c);
    c
  }

  /** Characters drawn from allowed text are allowed. */
  lemma AllowedSurvives(s: string, r: string)
    requires AllAllowed(s) && forall x :: x in r ==> x in s
    ensures AllAllowed(r)
  {
    forall k | 0 <= k < |r| ensures Allowed(r[k]) {
      assert r[k] in s;
    }
  }

  /** A piece of allowed text is allowed. */
  lemma AllowedPiece(s: string, r: string)
    requires AllAllowed(s) && exists i :: 0 <= i <= |s| && r <= s[i..]
    ensures AllAllowed(r)
  {
    var i :| 0 <= i <= |s| && r <= s[i..];
    forall k | 0 <= k < |r| ensures Allowed(r[k]) {
      assert r[k] == s[i + k];
    }
  }

  const DefaultType := "feat/"

  /** `feat/` is put in front exactly when the text has no `/`. */
  function Prefixed(c: string): (r: string)
    ensures '/' in r
    ensures '/' in c ==> r == c
    ensures '/' !in c ==> r == DefaultType + c
  {
    if '/' in c then c else DefaultType + c
  }

  /** The position of the first `/`. */
  function SlashIndex(s: string): (i: nat)
    requires '/' in s
    ensures i < |s| && s[i] == '/'
    ensures '/' !in s[..i]
  {
    if s[0] == '/' then 0
    else
      var j := SlashIndex(s[1..]);
      assert s[..j + 1] == [s[0]] + s[1..][..j];
      j + 1
  }

  /** JavaScript `substring(0, n)`: a negative end counts as zero, an end past
      the string as its length. */
  function SubstringTo(s: string, n: int): (r: string)
    ensures r <= s
    ensures 0 <= n <= |s| ==> |r| == n
    ensures n < 0 ==> r == ""
  {
    if n < 0 then "" else if n > |s| then s else s[..n]
  }

  function Max(a: int, b: int): int {
    if a < b then b else a
  }

  /** The length step: text of at most sixty characters is kept; longer text
      keeps its first segment, the `/`, and at most `50 - |segment|` further
      characters. */
  function Shorten(c: string): (r: string)
    ensures '/' in c ==> r <= c
    ensures |c| <= 60 ==> r == c
    ensures |c| > 60 && '/' in c ==> r == c[..Max(51, SlashIndex(c) + 1)]
  {
    if |c| <= 60 then c
    else
      var parts := Split(c, '/');
      var kind := parts[0];
      var desc := Join(parts[1..], '/');
      var r := kind + "/" + SubstringTo(desc, 50 - |kind|);
      assert '/' in c ==> r == c[..Max(51, SlashIndex(c) + 1)] by {
        if '/' in c {
          SplitFirst(c, '/');
          var i := SlashIndex(c);
          assert |kind| == i by {
            assert c[|kind|] == '/';
          }
        }
      }
      r
  }

  /** `sanitizeBranchName(rawName)`. */
  function Sanitize(raw: string): (r: string)
    ensures AllAllowed(r)
    ensures '/' in r
    ensures NoDoubleHyphen(r)
    ensures |r| > 0 && r[0] != '-'
    ensures r <= Prefixed(Clean(raw))
    ensures |Prefixed(Clean(raw))| <= 60 ==> r == Prefixed(Clean(raw))
    ensures |r| <= 60 || r[|r| - 1] == '/'
  {
    var c := Clean(raw);
    var p := Prefixed(c);
    PrefixedIsClean(c);
    ShortenKeepsClean(p);
    Shorten(p)
  }

  /** Shortening clean text that has a `/` keeps it clean, keeps the `/`, and
      leaves more than sixty characters only when it cuts right after the
      first `/`. */
  lemma ShortenKeepsClean(p: string)
    requires AllAllowed(p) && NoDoubleHyphen(p) && '/' in p && |p| > 0 && p[0] != '-'
    ensures var r := Shorten(p);
            && AllAllowed(r) && NoDoubleHyphen(r) && '/' in r && |r| > 0 && r[0] != '-'
            && (|r| <= 60 || r[|r| - 1] == '/')
  {
    var r := Shorten(p);
    if |p| > 60 {
      var i := SlashIndex(p);
      assert r[i] == '/';
    }
    PrefixKeepsClean(p, r);
    assert r[0] == p[0];
  }

  /** A prefix of clean text is made of allowed characters with no hyphen run. */
  lemma PrefixKeepsClean(p: string, r: string)
    requires r <= p && AllAllowed(p) && NoDoubleHyphen(p)
    ensures AllAllowed(r) && NoDoubleHyphen(r)
  {
    forall k | 0 <= k < |r| ensures r[k] == p[k] {
    }
  }

  /** Putting `feat/` in front keeps clean text clean. */
  lemma PrefixedIsClean(c: string)
    requires AllAllowed(c) && NoDoubleHyphen(c) && NoEdgeHyphen(c)
    ensures var p := Prefixed(c);
            AllAllowed(p) && NoDoubleHyphen(p) && NoEdgeHyphen(p) && |p| > 0
  {
    var p := Prefixed(c);
    if '/' !in c {
      forall k | 0 <= k < |p| - 1 ensures !(p[k] == '-' && p[k + 1] == '-') {
        if k >= 5 {
          assert p[k] == c[k - 5] && p[k + 1] == c[k - 4];
        }
      }
    }
  }

  /** Text that is already clean comes out of the cleaning step unchanged. */
  lemma CleanFixesCleanText(y: string)
    requires AllAllowed(y) && NoDoubleHyphen(y) && NoEdgeHyphen(y)
    ensures Clean(y) == y
  {
    assert ToLowerAscii(y) == y;
    assert Trimmed(y);
    assert ReplaceDisallowed(y) == y;
    CollapseFixesSingleHyphens(y);
  }

  /** Sanitizing a name that needed no shortening a second time changes nothing. */
  lemma SanitizeIdempotent(raw: string)
    requires |Prefixed(Clean(raw))| <= 60
    ensures Sanitize(Sanitize(raw)) == Sanitize(raw)
  {
    var c := Clean(raw);
    var p := Prefixed(c);
    PrefixedIsClean(c);
    CleanFixesCleanText(p);
    assert Prefixed(p) == p;
  }

  /** Empty and blank text becomes the bare default type. */
  lemma BlankBecomesDefaultType(raw: string)
    requires forall k :: 0 <= k < |raw| ==> IsSpace(raw[k])
    ensures Sanitize(raw) == DefaultType
  {
    var lower := ToLowerAscii(raw);
    TrimEmpty(lower);
    assert Trim(lower) == "";
    assert ReplaceDisallowed("") == "";
    assert Clean(raw) == "";
  }

  /** Letters are lower-cased before anything is replaced, so they survive:
      `Fix Login` becomes `feat/fix-login`. */
  lemma FixLoginExample(raw: string)
    requires raw == "Fix Login"
    ensures Sanitize(raw) == "feat/fix-login"
  {
    var c := "fix-login";
    FixLoginCleans(raw, c);
    FixLoginShape(c);
    ShortTypelessName(raw, c);
  }

  lemma FixLoginShape(c: string)
    requires c == "fix-login"
    ensures '/' !in c && |c| <= 55 && DefaultType + c == "feat/fix-login"
  {
    assert forall k :: 0 <= k < |c| ==> c[k] != '/';
  }

  /** A short cleaned text without `/` only gains the default type. */
  lemma ShortTypelessName(raw: string, c: string)
    requires Clean(raw) == c && '/' !in c && |c| <= 55
    ensures Sanitize(raw) == DefaultType + c
  {
  }

  lemma FixLoginCleans(raw: string, c: string)
    requires raw == "Fix Login" && c == "fix-login"
    ensures Clean(raw) == c
  {
    var lower := ToLowerAscii(raw);
    assert lower == "fix login" by {
      assert LowerChar('F') == 'f' && LowerChar('L') == 'l';
    }
    assert Trim(lower) == lower by {
      assert Trimmed(lower);
    }
    var replaced := ReplaceDisallowed(lower);
    assert replaced == "fix-login" by {
      assert !Allowed(' ');
    }
    assert CollapseHyphens(replaced) == replaced by {
      CollapseFixesSingleHyphens(replaced);
    }
    assert StripEdgeHyphens(replaced) == replaced;
  }

  /** A single word of ASCII letters and digits keeps every character,
      lower-cased, behind the default type. */
  lemma WordKeepsItsLetters(raw: string)
    requires 0 < |raw| <= 55
    requires forall k :: 0 <= k < |raw| ==> ('A' <= raw[k] <= 'Z') || ('a' <= raw[k] <= 'z') || ('0' <= raw[k] <= '9')
    ensures Sanitize(raw) == DefaultType + ToLowerAscii(raw)
  {
    var lower := ToLowerAscii(raw);
    LowerWordIsClean(raw);
    assert ToLowerAscii(lower) == lower;
    assert Clean(raw) == Clean(lower);
    CleanFixesCleanText(lower);
  }

  /** The lower-cased word is already clean and has no `/`. */
  lemma LowerWordIsClean(raw: string)
    requires forall k :: 0 <= k < |raw| ==> ('A' <= raw[k] <= 'Z') || ('a' <= raw[k] <= 'z') || ('0' <= raw[k] <= '9')
    ensures var lower := ToLowerAscii(raw);
            AllAllowed(lower) && NoDoubleHyphen(lower) && NoEdgeHyphen(lower) && '/' !in lower
  {
    var lower := ToLowerAscii(raw);
    assert forall k :: 0 <= k < |lower| ==> ('a' <= lower[k] <= 'z') || ('0' <= lower[k] <= '9');
  }

  /** When the type segment alone reaches fifty characters, the shortened
      name is that segment and its `/`, with nothing after it. */
  lemma LongTypeLeavesEmptyDescription(raw: string)
    requires '/' in Clean(raw)
    requires |Clean(raw)| > 60 && SlashIndex(Clean(raw)) >= 50
    ensures var i := SlashIndex(Clean(raw));
            Sanitize(raw) == Clean(raw)[..i + 1] && Sanitize(raw)[|Sanitize(raw)| - 1] == '/'
  {
    var c := Clean(raw);
    assert Prefixed(c) == c;
    assert Sanitize(raw) == Shorten(c);
  }

  /** Shortening can cut just after a hyphen, so the name ends in `-`; a second
      pass then strips it, so sanitizing is not idempotent on long names. */
  lemma CutMayEndInHyphen(raw: string)
    requires |Prefixed(Clean(raw))| > 60
    requires SlashIndex(Prefixed(Clean(raw))) < 50 && Prefixed(Clean(raw))[50] == '-'
    ensures |Sanitize(raw)| == 51 && Sanitize(raw)[50] == '-'
    ensures Sanitize(Sanitize(raw)) != Sanitize(raw)
  {
    var p := Prefixed(Clean(raw));
    var r := Sanitize(raw);
    assert r == Shorten(p);
    assert r == p[..51];
    TrailingHyphenIsNotFixed(r);
  }

  /** A name of at most fifty-five characters that ends in `-` is changed by
      sanitizing: cleaning drops the trailing hyphen, and the text is too short
      to be shortened back to the same length. */
  lemma TrailingHyphenIsNotFixed(r: string)
    requires 5 < |r| <= 55 && r[|r| - 1] == '-'
    ensures Sanitize(r) != r
  {
    var c := Clean(r);
    var q := Prefixed(c);
    var s := Sanitize(r);
    if '/' in c {
      if |s| == |r| {
        assert s == c;
      }
    } else {
      assert s == q;
      if |c| > 0 {
        assert s[|s| - 1] == c[|c| - 1];
      }
    }
  }
}

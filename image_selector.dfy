/**
 * Loading an image from a typed URL: the input is trimmed, rejected when
 * blank, rejected when offline, then tested against the pattern
 * `^https?://.+\.(jpg|jpeg|png|gif|webp)(\?.*)?$` with the `i` flag. An
 * accepted URL is handed to the selection callback as trimmed and the field is
 * cleared. Also the six preset image URLs, each proved to pass the same test.
 */
module ImageSelection {
  import opened Text

  // ---------------------------------------------------------------------------
  // Case-insensitive literals
  // ---------------------------------------------------------------------------

  /** Case folding as the `i` flag applies it to the pattern's letters: only
      ASCII letters fold (without the `u` flag no non-ASCII character folds to
      an ASCII one). */
  function LowerAscii(c: char): char {
    if 'A' <= c <= 'Z' then (c as int + 32) as char else c
  }

  /** `a` equals the lower-case literal `lit` up to ASCII case. */
  predicate FoldEq(a: string, lit: string) {
    |a| == |lit| && forall k :: 0 <= k < |a| ==> LowerAscii(a[k]) == lit[k]
  }

  predicate NoLineTerminator(s: string) {
    forall k :: 0 <= k < |s| ==> !IsLineTerminator(s[k])
  }

  /** One of the accepted extensions, in any letter case. */
  predicate IsExtension(ext: string) {
    FoldEq(ext, "jpg") || FoldEq(ext, "jpeg") || FoldEq(ext, "png")
    || FoldEq(ext, "gif") || FoldEq(ext, "webp")
  }

  // ---------------------------------------------------------------------------
  // The pattern, read as a decomposition (the reference meaning)
  // ---------------------------------------------------------------------------

  /** `s` splits as scheme `://` body `.` extension query, where the scheme is
      `http` or `https`, the body (`.+`) is one or more characters other than
      line terminators, and the query (`(\?.*)?`) is empty or a `?` followed
      by characters other than line terminators. */
  ghost predicate Decomposes(s: string, scheme: string, body: string, ext: string, query: string) {
    && s == scheme + "://" + body + "." + ext + query
    && (FoldEq(scheme, "http") || FoldEq(scheme, "https"))
    && |body| >= 1 && NoLineTerminator(body)
    && IsExtension(ext)
    && (query == [] || (query[0] == '?' && NoLineTerminator(query[1..])))
  }

  ghost predicate MatchesUrlPattern(s: string) {
    exists scheme, body, ext, query :: Decomposes(s, scheme, body, ext, query)
  }

  // ---------------------------------------------------------------------------
  // The pattern as a decision procedure
  // ---------------------------------------------------------------------------

  /** Length of the `http://` or `https://` prefix (any case), or 0. */
  function SchemeLength(s: string): nat {
    if |s| >= 7 && FoldEq(s[..7], "http://") then 7
    else if |s| >= 8 && FoldEq(s[..8], "https://") then 8
    else 0
  }

  /** What follows the final dot: an extension, then the end or a `?`. */
  predicate ExtensionThenQuery(t: string) {
    || (|t| >= 3 && IsExtension(t[..3]) && (|t| == 3 || t[3] == '?'))
    || (|t| >= 4 && IsExtension(t[..4]) && (|t| == 4 || t[4] == '?'))
  }

  /** Position `p` of `rest` (the text after the scheme) is a dot with at
      least one character before it, followed by an extension and query. */
  predicate DotAt(rest: string, p: nat) {
    1 <= p < |rest| && rest[p] == '.' && ExtensionThenQuery(rest[p + 1..])
  }

  /** Some position at or after `p` satisfies `DotAt`. */
  predicate SomeDotFrom(rest: string, p: nat)
    decreases |rest| - p
  {
    p < |rest| && (DotAt(rest, p) || SomeDotFrom(rest, p + 1))
  }

  /** A dot with an extension after it needs at least four characters from
      its position on. */
  lemma {:induction false} SomeDotFromLength(rest: string, p: nat)
    ensures SomeDotFrom(rest, p) ==> p + 4 <= |rest|
    decreases |rest| - p
  {
    if p < |rest| && !DotAt(rest, p) {
      SomeDotFromLength(rest, p + 1);
    }
  }

  /** The URL test of `loadImageFromUrl`. The shortest accepted URLs, such as
      `http://a.gif`, are twelve characters long. */
  predicate IsImageUrl(s: string)
    ensures IsImageUrl(s) ==> 12 <= |s|
  {
    var n := SchemeLength(s);
    SomeDotFromLength(s[n..], 1);
    NoLineTerminator(s) && n > 0 && SomeDotFrom(s[n..], 1)
  }

  // ---------------------------------------------------------------------------
  // The decision procedure decides the pattern
  // ---------------------------------------------------------------------------

  lemma {:induction false} SomeDotWitness(rest: string, p: nat) returns (q: nat)
    requires SomeDotFrom(rest, p)
    ensures p <= q && DotAt(rest, q)
    decreases |rest| - p
  {
    if DotAt(rest, p) {
      q := p;
    } else {
      q := SomeDotWitness(rest, p + 1);
    }
  }

  lemma {:induction false} SomeDotFromWitness(rest: string, p: nat, q: nat)
    requires p <= q && DotAt(rest, q)
    ensures SomeDotFrom(rest, p)
    decreases q - p
  {
    if p < q {
      SomeDotFromWitness(rest, p + 1, q);
    }
  }

  /** Folding never turns a character into a line terminator or out of one. */
  lemma FoldEqNoLineTerminator(a: string, lit: string)
    requires FoldEq(a, lit) && NoLineTerminator(lit)
    ensures NoLineTerminator(a)
  {
    forall k | 0 <= k < |a| ensures !IsLineTerminator(a[k]) {
      assert LowerAscii(a[k]) == lit[k];
    }
  }

  lemma FoldEqSplit(a: string, b: string, x: string, y: string)
    requires |a| == |x|
    ensures FoldEq(a + b, x + y) <==> FoldEq(a, x) && FoldEq(b, y)
  {
    if FoldEq(a + b, x + y) {
      forall k | 0 <= k < |a| ensures LowerAscii(a[k]) == x[k] {
        assert (a + b)[k] == a[k] && (x + y)[k] == x[k];
      }
      forall k | 0 <= k < |b| ensures LowerAscii(b[k]) == y[k] {
        assert (a + b)[|a| + k] == b[k] && (x + y)[|x| + k] == y[k];
      }
    }
    if FoldEq(a, x) && FoldEq(b, y) {
      forall k | 0 <= k < |a + b| ensures LowerAscii((a + b)[k]) == (x + y)[k] {
        if k < |a| {
          assert (a + b)[k] == a[k] && (x + y)[k] == x[k];
        } else {
          assert (a + b)[k] == b[k - |a|] && (x + y)[k] == y[k - |x|];
        }
      }
    }
  }

  /** Only the characters themselves fold to `:` and `/`. */
  lemma FoldSeparator(a: string)
    requires FoldEq(a, "://")
    ensures a == "://"
  {
  }

  lemma ExtensionLength(ext: string)
    requires IsExtension(ext)
    ensures |ext| == 3 || |ext| == 4
    ensures NoLineTerminator(ext)
  {
    if FoldEq(ext, "jpg") { FoldEqNoLineTerminator(ext, "jpg"); }
    else if FoldEq(ext, "jpeg") { FoldEqNoLineTerminator(ext, "jpeg"); }
    else if FoldEq(ext, "png") { FoldEqNoLineTerminator(ext, "png"); }
    else if FoldEq(ext, "gif") { FoldEqNoLineTerminator(ext, "gif"); }
    else { FoldEqNoLineTerminator(ext, "webp"); }
  }

  lemma NoLineTerminatorAppend(a: string, b: string)
    ensures NoLineTerminator(a + b) <==> NoLineTerminator(a) && NoLineTerminator(b)
  {
    if NoLineTerminator(a + b) {
      forall k | 0 <= k < |a| ensures !IsLineTerminator(a[k]) {
        assert (a + b)[k] == a[k];
      }
      forall k | 0 <= k < |b| ensures !IsLineTerminator(b[k]) {
        assert (a + b)[|a| + k] == b[k];
      }
    }
    if NoLineTerminator(a) && NoLineTerminator(b) {
      forall k | 0 <= k < |a + b| ensures !IsLineTerminator((a + b)[k]) {
        if k >= |a| {
          assert (a + b)[k] == b[k - |a|];
        }
      }
    }
  }

  lemma NoLineTerminatorSlice(s: string, i: nat, j: nat)
    requires i <= j <= |s| && NoLineTerminator(s)
    ensures NoLineTerminator(s[i..j])
  {
    assert forall k :: 0 <= k < j - i ==> s[i..j][k] == s[i + k];
  }

  lemma SplitSix<T>(s: seq<T>, a: nat, b: nat, c: nat, d: nat, e: nat)
    requires a <= b <= c <= d <= e <= |s|
    ensures s == s[..a] + s[a..b] + s[b..c] + s[c..d] + s[d..e] + s[e..]
  {
  }

  /** A recognised scheme prefix is `http` or `https` followed by `://`. */
  lemma SchemeParts(s: string)
    requires SchemeLength(s) > 0
    ensures var n := SchemeLength(s);
      && 7 <= n <= |s| && s[n - 3..n] == "://"
      && (FoldEq(s[..n - 3], "http") || FoldEq(s[..n - 3], "https"))
  {
    var n := SchemeLength(s);
    assert s[..n] == s[..n - 3] + s[n - 3..n];
    if n == 7 {
      FoldEqSplit(s[..n - 3], s[n - 3..n], "http", "://");
    } else {
      FoldEqSplit(s[..n - 3], s[n - 3..n], "https", "://");
    }
    FoldSeparator(s[n - 3..n]);
  }

  /** What `ExtensionThenQuery` accepts splits into an extension and a query. */
  lemma ExtensionParts(t: string) returns (len: nat)
    requires ExtensionThenQuery(t)
    ensures len <= |t| && IsExtension(t[..len])
    ensures var query := t[len..]; query == [] || query[0] == '?'
  {
    len := if |t| >= 3 && IsExtension(t[..3]) && (|t| == 3 || t[3] == '?') then 3 else 4;
  }

  /** Cutting `s` at the scheme end `n`, the dot `n + p` and the extension end
      gives the pieces of a decomposition. */
  lemma Assemble(s: string, n: nat, p: nat, len: nat)
    requires 7 <= n && n + p + 1 + len <= |s| && p >= 1
    requires s[n - 3..n] == "://" && s[n + p] == '.'
    ensures s == s[..n - 3] + "://" + s[n..n + p] + "." + s[n + p + 1..n + p + 1 + len] + s[n + p + 1 + len..]
  {
    var d, e, f := n + p, n + p + 1, n + p + 1 + len;
    SplitSix(s, n - 3, n, d, e, f);
    assert s[d..e] == ".";
  }

  /** The cuts found by the test give a decomposition. */
  lemma DecomposesAtCuts(s: string, n: nat, p: nat, len: nat)
    requires 7 <= n && n + p + 1 + len <= |s| && p >= 1
    requires s[n - 3..n] == "://" && s[n + p] == '.'
    requires FoldEq(s[..n - 3], "http") || FoldEq(s[..n - 3], "https")
    requires IsExtension(s[n + p + 1..n + p + 1 + len])
    requires n + p + 1 + len == |s| || s[n + p + 1 + len] == '?'
    requires NoLineTerminator(s)
    ensures Decomposes(s, s[..n - 3], s[n..n + p], s[n + p + 1..n + p + 1 + len], s[n + p + 1 + len..])
  {
    var f := n + p + 1 + len;
    Assemble(s, n, p, len);
    NoLineTerminatorSlice(s, n, n + p);
    if f < |s| {
      NoLineTerminatorSlice(s, f + 1, |s|);
      assert s[f..][1..] == s[f + 1..];
    }
  }

  /** A string the test accepts, with its scheme length `n`, matches the
      pattern. */
  lemma AcceptedMatches(s: string, n: nat)
    requires NoLineTerminator(s) && n == SchemeLength(s) && n > 0
    requires SomeDotFrom(s[n..], 1)
    ensures MatchesUrlPattern(s)
  {
    SchemeParts(s);
    var rest := s[n..];
    var p := SomeDotWitness(rest, 1);
    var t := rest[p + 1..];
    var len := ExtensionParts(t);
    assert rest[p] == s[n + p];
    assert t[..len] == s[n + p + 1..n + p + 1 + len];
    assert len < |t| ==> t[len] == s[n + p + 1 + len];
    DecomposesAtCuts(s, n, p, len);
  }

  /** Every string the test accepts matches the pattern. */
  lemma IsImageUrlSound(s: string)
    requires IsImageUrl(s)
    ensures MatchesUrlPattern(s)
  {
    AcceptedMatches(s, SchemeLength(s));
  }

  lemma QueryNoLineTerminator(query: string)
    requires query == [] || (query[0] == '?' && NoLineTerminator(query[1..]))
    ensures NoLineTerminator(query)
  {
    if query != [] {
      assert query == [query[0]] + query[1..];
      NoLineTerminatorAppend([query[0]], query[1..]);
    }
  }

  lemma SchemeNoLineTerminator(scheme: string)
    requires FoldEq(scheme, "http") || FoldEq(scheme, "https")
    ensures NoLineTerminator(scheme + "://")
  {
    if FoldEq(scheme, "http") {
      FoldEqNoLineTerminator(scheme, "http");
    } else {
      FoldEqNoLineTerminator(scheme, "https");
    }
    NoLineTerminatorAppend(scheme, "://");
  }

  /** A decomposed string contains no line terminator. */
  lemma DecomposedNoLineTerminator(s: string, scheme: string, body: string, ext: string, query: string)
    requires Decomposes(s, scheme, body, ext, query)
    ensures NoLineTerminator(s)
  {
    SchemeNoLineTerminator(scheme);
    ExtensionLength(ext);
    QueryNoLineTerminator(query);
    NoLineTerminatorAppend(scheme + "://", body);
    NoLineTerminatorAppend(scheme + "://" + body, ".");
    NoLineTerminatorAppend(scheme + "://" + body + ".", ext);
    NoLineTerminatorAppend(scheme + "://" + body + "." + ext, query);
  }

  /** A decomposed string splits after its scheme separator. */
  lemma DecomposedSplit(s: string, scheme: string, body: string, ext: string, query: string)
    requires s == scheme + "://" + body + "." + ext + query
    ensures |scheme| + 3 <= |s|
    ensures s[..|scheme| + 3] == scheme + "://"
    ensures s[|scheme| + 3..] == body + "." + ext + query
  {
    var head := scheme + "://";
    assert s == head + (body + "." + ext + query);
  }

  /** The scheme of a decomposed string is the one `SchemeLength` finds. */
  lemma DecomposedScheme(s: string, scheme: string)
    requires |scheme| + 3 <= |s| && s[..|scheme| + 3] == scheme + "://"
    requires FoldEq(scheme, "http") || FoldEq(scheme, "https")
    ensures SchemeLength(s) == |scheme| + 3
  {
    var head := scheme + "://";
    if FoldEq(scheme, "http") {
      FoldEqSplit(scheme, "://", "http", "://");
      assert s[..7] == head;
    } else {
      FoldEqSplit(scheme, "://", "https", "://");
      assert s[..8] == head;
      assert s[4] == head[4] && LowerAscii(s[4]) == 's';
      assert !FoldEq(s[..7], "http://");
    }
  }

  /** After the scheme, the decomposition's dot is one that `DotAt` finds. */
  lemma DecomposedDot(rest: string, body: string, ext: string, query: string)
    requires rest == body + "." + ext + query
    requires |body| >= 1 && IsExtension(ext)
    requires query == [] || query[0] == '?'
    ensures SomeDotFrom(rest, 1)
  {
    ExtensionLength(ext);
    var p := |body|;
    var t := ext + query;
    assert rest == body + "." + t;
    assert rest[p] == '.';
    assert rest[p + 1..] == t;
    assert t[..|ext|] == ext;
    assert |t| > |ext| ==> t[|ext|] == query[0];
    assert DotAt(rest, p);
    SomeDotFromWitness(rest, 1, p);
  }

  /** Every string that matches the pattern passes the test. */
  lemma IsImageUrlComplete(s: string, scheme: string, body: string, ext: string, query: string)
    requires Decomposes(s, scheme, body, ext, query)
    ensures IsImageUrl(s)
  {
    DecomposedNoLineTerminator(s, scheme, body, ext, query);
    DecomposedSplit(s, scheme, body, ext, query);
    DecomposedScheme(s, scheme);
    DecomposedDot(s[|scheme| + 3..], body, ext, query);
  }

  /** The test accepts exactly the strings the pattern matches. */
  lemma IsImageUrlMatchesPattern(s: string)
    ensures IsImageUrl(s) <==> MatchesUrlPattern(s)
  {
    if IsImageUrl(s) {
      IsImageUrlSound(s);
    }
    if MatchesUrlPattern(s) {
      var scheme, body, ext, query :| Decomposes(s, scheme, body, ext, query);
      IsImageUrlComplete(s, scheme, body, ext, query);
    }
  }

  // ---------------------------------------------------------------------------
  // Preset images
  // ---------------------------------------------------------------------------

  /** The preset images all come from one host with one query string; each
      preset URL is `https://` and this host, a photo path, `.jpeg?` and
      these parameters. */
  const PexelsHost: string := "images.pexels.com/photos/"
  const PexelsParams: string := "auto=compress&cs=tinysrgb&w=400"

  function PexelsUrl(path: string): string {
    "https://" + PexelsHost + path + ".jpeg?" + PexelsParams
  }

  /** The photo paths of the six preset images, in display order. */
  const PopularPhotoPaths: seq<string> := [
    "45201/kitty-cat-kitten-pet-45201",
    "1108099/pexels-photo-1108099",
    "1851164/pexels-photo-1851164",
    "697509/pexels-photo-697509",
    "1133957/pexels-photo-1133957",
    "1805164/pexels-photo-1805164"
  ]

  /** The six preset image URLs offered while online. */
  const PopularImages: seq<string> :=
    seq(|PopularPhotoPaths|, i requires 0 <= i < |PopularPhotoPaths| => PexelsUrl(PopularPhotoPaths[i]))

  /** Every preset matches the URL pattern, so picking a preset never yields a
      source the typed-URL path would refuse. */
  lemma PopularImagesAccepted()
    ensures |PopularImages| == 6
    ensures forall i :: 0 <= i < |PopularImages| ==> MatchesUrlPattern(PopularImages[i])
  {
    PhotoPathsPlainFirst();
    PhotoPathsPlainLast();
    forall i | 0 <= i < |PopularImages| ensures MatchesUrlPattern(PopularImages[i]) {
      PexelsUrlAccepted(PopularPhotoPaths[i]);
    }
  }

  lemma PhotoPathsPlainFirst()
    ensures forall i :: 0 <= i < 3 ==> NoLineTerminator(PopularPhotoPaths[i])
  {
    assert NoLineTerminator(PopularPhotoPaths[0]);
    assert NoLineTerminator(PopularPhotoPaths[1]);
    assert NoLineTerminator(PopularPhotoPaths[2]);
  }

  lemma PhotoPathsPlainLast()
    ensures forall i :: 3 <= i < 6 ==> NoLineTerminator(PopularPhotoPaths[i])
  {
    assert NoLineTerminator(PopularPhotoPaths[3]);
    assert NoLineTerminator(PopularPhotoPaths[4]);
    assert NoLineTerminator(PopularPhotoPaths[5]);
  }

  /** Any photo path without line terminators gives an accepted preset URL. */
  lemma PexelsUrlAccepted(path: string)
    requires NoLineTerminator(path)
    ensures MatchesUrlPattern(PexelsUrl(path))
  {
    var body, query := PexelsHost + path, "?" + PexelsParams;
    PexelsUrlParts(path);
    PexelsPartsPlain();
    NoLineTerminatorAppend(PexelsHost, path);
    assert query[1..] == PexelsParams;
    assert FoldEq("https", "https") && FoldEq("jpeg", "jpeg");
    assert Decomposes(PexelsUrl(path), "https", body, "jpeg", query);
  }

  lemma PexelsUrlParts(path: string)
    ensures PexelsUrl(path) == "https" + "://" + (PexelsHost + path) + "." + "jpeg" + ("?" + PexelsParams)
  {
    assert "https://" == "https" + "://";
    assert ".jpeg?" == "." + "jpeg" + "?";
  }

  lemma PexelsPartsPlain()
    ensures NoLineTerminator(PexelsHost) && NoLineTerminator(PexelsParams)
  {
  }

  // ---------------------------------------------------------------------------
  // The URL field
  // ---------------------------------------------------------------------------

  /** How a press of the URL button ends. `Selected(uri)` means the selection
      callback received `uri`; `SelectFailed(uri)` means it received `uri` but
      threw, which is reported as a load error. */
  datatype UrlOutcome =
    | BlankInput
    | Offline
    | InvalidUrl
    | Selected(uri: string)
    | SelectFailed(uri: string)

  /** The URL part of the image selector: the text field and the loading flag.
      `flagWrites` records every value written to `isLoadingUrl`, in order. */
  class ImageSelector {
    var urlInput: string
    var isLoadingUrl: bool
    ghost var flagWrites: seq<bool>

    constructor ()
      ensures urlInput == [] && !isLoadingUrl && flagWrites == []
    {
      urlInput := [];
      isLoadingUrl := false;
      flagWrites := [];
    }

    /** Typing into the field. */
    method SetUrlInput(text: string)
      modifies this`urlInput
      ensures urlInput == text
    {
      urlInput := text;
    }

    /** The URL button. Connectivity and whether the selection callback throws
        are parameters. */
    method LoadImageFromUrl(isConnected: bool, selectThrows: bool) returns (outcome: UrlOutcome)
      modifies this
      // a blank field is refused first, touching nothing
      ensures Trim(old(urlInput)) == [] ==>
        outcome == BlankInput && urlInput == old(urlInput)
        && isLoadingUrl == old(isLoadingUrl) && flagWrites == old(flagWrites)
      // then an offline device, touching nothing
      ensures Trim(old(urlInput)) != [] && !isConnected ==>
        outcome == Offline && urlInput == old(urlInput)
        && isLoadingUrl == old(isLoadingUrl) && flagWrites == old(flagWrites)
      // otherwise the flag is raised, then lowered on every exit
      ensures Trim(old(urlInput)) != [] && isConnected ==>
        flagWrites == old(flagWrites) + [true, false] && !isLoadingUrl
      ensures Trim(old(urlInput)) != [] && isConnected ==>
        outcome == (if !IsImageUrl(Trim(old(urlInput))) then InvalidUrl
                    else if selectThrows then SelectFailed(Trim(old(urlInput)))
                    else Selected(Trim(old(urlInput))))
      // the field is cleared only after a successful selection
      ensures urlInput == if outcome.Selected? then [] else old(urlInput)
    {
      var trimmed := Trim(urlInput);
      if trimmed == [] {
        return BlankInput;
      }
      if !isConnected {
        return Offline;
      }
      isLoadingUrl := true;
      flagWrites := flagWrites + [true];
      if !IsImageUrl(trimmed) {
        outcome := InvalidUrl;
      } else if selectThrows {
        outcome := SelectFailed(trimmed);
      } else {
        outcome := Selected(trimmed);
        urlInput := [];
      }
      isLoadingUrl := false;
      flagWrites := flagWrites + [false];
    }
  }

  /** What the selection callback receives is trimmed, non-blank, matches the
      pattern and is the trimmed field text. */
  lemma SelectedUriProperties(input: string)
    requires Trim(input) != [] && IsImageUrl(Trim(input))
    ensures var uri := Trim(input);
      && MatchesUrlPattern(uri) && Trim(uri) == uri
      && !IsSpace(uri[0]) && !IsSpace(uri[|uri| - 1])
  {
    IsImageUrlMatchesPattern(Trim(input));
    TrimIdempotent(input);
  }
}

/**
  The base class of the basic-authentication API: decides whether a request
  path needs authentication, reads the `Authorization` header, and names the
  current user (never anyone, in this base class).

  `require_auth` receives the excluded paths as a Python list and rewrites it
  in place; here that list is an array, and a `None` list is `null`.
 */
module BasicAuth {
  import opened Wrappers

  /** What `require_auth` does: decide, or raise `IndexError` on an empty string. */
  datatype Outcome = Decided(required: bool) | IndexError

  /** A request, reduced to its headers (exact, case-sensitive keys). */
  datatype Request = Request(headers: map<string, string>)

  /** `s[:-1]` when `s` ends in `/`, otherwise `s`. */
  function StripSlash(s: string): string {
    if |s| > 0 && s[|s| - 1] == '/' then s[..|s| - 1] else s
  }

  /** Python's slice `s[:stop]`, where a negative stop counts from the end. */
  function PySliceTo(s: string, stop: int): string {
    if stop >= 0 then s[..if stop <= |s| then stop else |s|]
    else s[..if |s| + stop >= 0 then |s| + stop else 0]
  }

  /** Python's `x in y` on strings: `x` occurs somewhere in `y`. */
  predicate IsSubstring(x: string, y: string)
    decreases |y|
  {
    x <= y || (|y| > 0 && IsSubstring(x, y[1..]))
  }

  /** `StripSlash` drops one trailing `/` when there is one, and nothing else. */
  lemma StripSlashDropsOneSlash(s: string)
    ensures StripSlash(s) <= s
    ensures |s| > 0 && s[|s| - 1] == '/' ==> |StripSlash(s)| == |s| - 1
    ensures !(|s| > 0 && s[|s| - 1] == '/') ==> StripSlash(s) == s
  {
  }

  /**
    `PySliceTo` is a prefix: `stop` characters when `0 <= stop <= |s|`, the
    whole string beyond that, and `|s| + stop` characters (at least none) for a
    negative `stop`.
   */
  lemma PySliceToIsPrefix(s: string, stop: int)
    ensures PySliceTo(s, stop) <= s
    ensures 0 <= stop <= |s| ==> |PySliceTo(s, stop)| == stop
    ensures stop > |s| ==> PySliceTo(s, stop) == s
    ensures stop < 0 && |s| + stop >= 0 ==> |PySliceTo(s, stop)| == |s| + stop
    ensures |s| + stop < 0 ==> PySliceTo(s, stop) == []
  {
  }

  /** `IsSubstring(x, y)` holds exactly when `x` starts at some position of `y`. */
  lemma {:induction false} IsSubstringExactly(x: string, y: string)
    ensures IsSubstring(x, y) <==> exists i :: 0 <= i <= |y| && x <= y[i..]
    decreases |y|
  {
    assert y[0..] == y;
    if |y| > 0 {
      IsSubstringExactly(x, y[1..]);
      forall i | 1 <= i <= |y|
        ensures y[1..][i - 1..] == y[i..]
      {
        assert |y[1..][i - 1..]| == |y[i..]|;
      }
    }
  }

  /** An entry the loop can index: neither `""` nor `"/"`. */
  predicate ValidEntry(e: string) {
    |e| > 0 && |StripSlash(e)| > 0
  }

  /**
    The wildcard test on an entry `e` after its slash is stripped: `e` ends in
    `*`, and the first `len(e[:-1]) - 1` characters of the path occur in `e[:-1]`.
   */
  predicate WildcardFires(path: string, e: string) {
    |e| > 0 && e[|e| - 1] == '*' && IsSubstring(PySliceTo(path, |e| - 2), e[..|e| - 1])
  }

  /** How the loop over the excluded list ends, from index `i` on. */
  datatype Scan = Fires(at: nat) | Passes | Faults

  /** The loop of `require_auth` from entry `i` on, for the already stripped path. */
  function ScanFrom(path: string, entries: seq<string>, i: nat): Scan
    requires i <= |entries|
    decreases |entries| - i
  {
    if i == |entries| then Passes
    else if !ValidEntry(entries[i]) then Faults
    else if WildcardFires(path, StripSlash(entries[i])) then Fires(i)
    else ScanFrom(path, entries, i + 1)
  }

  /** The list after the loop stripped one trailing `/` from each of its first `n` entries. */
  function StripFirst(entries: seq<string>, n: nat): (r: seq<string>)
    ensures |r| == |entries|
  {
    seq(|entries|, j requires 0 <= j < |entries| => if j < n then StripSlash(entries[j]) else entries[j])
  }

  /** The loop passes over entry `e`: it can be indexed and its wildcard test does not fire. */
  predicate Skips(path: string, e: string) {
    ValidEntry(e) && !WildcardFires(path, StripSlash(e))
  }

  /**
    The loop stops at the first entry whose wildcard test fires, provided every
    entry before it can be indexed; it runs to the end when every entry can be
    indexed and no test fires; otherwise it reaches an entry `""` or `"/"`.
   */
  lemma {:induction false} ScanFromCharacterized(path: string, entries: seq<string>, i: nat)
    requires i <= |entries|
    ensures ScanFrom(path, entries, i).Fires? ==>
      var k := ScanFrom(path, entries, i).at;
      i <= k < |entries| && ValidEntry(entries[k]) && WildcardFires(path, StripSlash(entries[k]))
      && forall j :: i <= j < k ==> Skips(path, entries[j])
    ensures ScanFrom(path, entries, i).Passes? <==> forall j :: i <= j < |entries| ==> Skips(path, entries[j])
    ensures ScanFrom(path, entries, i).Faults? ==>
      exists k :: i <= k < |entries| && !ValidEntry(entries[k]) && forall j :: i <= j < k ==> Skips(path, entries[j])
    decreases |entries| - i
  {
    if i == |entries| {
    } else if Skips(path, entries[i]) {
      assert ScanFrom(path, entries, i) == ScanFrom(path, entries, i + 1);
      ScanFromCharacterized(path, entries, i + 1);
      if ScanFrom(path, entries, i).Faults? {
        var k :| i + 1 <= k < |entries| && !ValidEntry(entries[k]) && forall j :: i + 1 <= j < k ==> Skips(path, entries[j]);
        assert forall j :: i <= j < k ==> Skips(path, entries[j]);
      }
    } else if !ValidEntry(entries[i]) {
      assert ScanFrom(path, entries, i) == Faults;
    } else {
      assert ScanFrom(path, entries, i) == Fires(i);
    }
  }

  /** One turn of the loop: the entry is indexable, and either the test fires here or the scan goes on. */
  lemma ScanStep(path: string, entries: seq<string>, i: nat)
    requires i < |entries| && !ScanFrom(path, entries, i).Faults?
    ensures ValidEntry(entries[i])
    ensures WildcardFires(path, StripSlash(entries[i])) ==> ScanFrom(path, entries, i) == Fires(i)
    ensures !WildcardFires(path, StripSlash(entries[i])) ==> ScanFrom(path, entries, i) == ScanFrom(path, entries, i + 1)
  {
  }

  /** Stripping entry `i` extends the stripped part by one. */
  lemma StripFirstStep(entries: seq<string>, i: nat)
    requires i < |entries|
    ensures StripFirst(entries, i)[i := StripSlash(entries[i])] == StripFirst(entries, i + 1)
  {
  }

  /** What `require_auth(path, excluded_paths)` returns or raises. */
  function Decision(path: Option<string>, excluded: Option<seq<string>>): Outcome {
    if path.None? || excluded.None? || |excluded.value| == 0 then Decided(true)
    else if |path.value| == 0 then IndexError
    else
      var p := StripSlash(path.value);
      match ScanFrom(p, excluded.value, 0)
      case Faults => IndexError
      case Fires(_) => Decided(false)
      case Passes => Decided(p !in StripFirst(excluded.value, |excluded.value|))
  }

  /** How many entries the loop of `require_auth` visits (and may rewrite). */
  function Visited(path: Option<string>, excluded: seq<string>): (n: nat)
    ensures n <= |excluded|
  {
    if path.None? || |excluded| == 0 || |path.value| == 0 then 0
    else
      var p := StripSlash(path.value);
      ScanFromCharacterized(p, excluded, 0);
      match ScanFrom(p, excluded, 0)
      case Fires(k) => k + 1
      case _ => |excluded|
  }

  /** How the decision and the number of visited entries follow from where the loop ends. */
  lemma ScanEnds(path: string, entries: seq<string>)
    requires |path| > 0 && |entries| > 0
    ensures ScanFrom(StripSlash(path), entries, 0).Fires? ==>
      Decision(Some(path), Some(entries)) == Decided(false)
      && Visited(Some(path), entries) == ScanFrom(StripSlash(path), entries, 0).at + 1
    ensures ScanFrom(StripSlash(path), entries, 0).Passes? ==>
      Decision(Some(path), Some(entries)) == Decided(StripSlash(path) !in StripFirst(entries, |entries|))
      && Visited(Some(path), entries) == |entries|
  {
  }

  /** The authentication base class; it holds no state. */
  class Auth {

    constructor () {}

    /**
      `require_auth`: whether `path` needs authentication. Strips one trailing
      `/` from the path and, in place, from every entry it visits.
     */
    method RequireAuth(path: Option<string>, excludedPaths: array?<string>) returns (required: bool)
      requires excludedPaths != null ==> Decision(path, Some(excludedPaths[..])) != IndexError
      modifies excludedPaths
      ensures excludedPaths == null ==> Decision(path, None) == Decided(required)
      ensures excludedPaths != null ==> Decision(path, Some(old(excludedPaths[..]))) == Decided(required)
      ensures excludedPaths != null ==>
        excludedPaths[..] == StripFirst(old(excludedPaths[..]), Visited(path, old(excludedPaths[..])))
    {
      if path.None? {
        return true;
      }
      if excludedPaths == null || excludedPaths.Length == 0 {
        return true;
      }
      var p := path.value;
      if p[|p| - 1] == '/' {
        p := p[..|p| - 1];
      }
      ScanEnds(path.value, excludedPaths[..]);
      var fired := StripUntilFired(p, excludedPaths);
      if fired {
        return false;
      }
      return p !in excludedPaths[..];
    }

    /**
      The loop of `require_auth`: strips the entries of `excludedPaths` in
      order and stops after the first whose wildcard fires for `p`.
     */
    method StripUntilFired(p: string, excludedPaths: array<string>) returns (fired: bool)
      requires ScanFrom(p, excludedPaths[..], 0) != Faults
      modifies excludedPaths
      ensures fired <==> ScanFrom(p, old(excludedPaths[..]), 0).Fires?
      ensures excludedPaths[..] == StripFirst(old(excludedPaths[..]),
        if fired then ScanFrom(p, old(excludedPaths[..]), 0).at + 1 else excludedPaths.Length)
    {
      ghost var entries := excludedPaths[..];
      for i := 0 to excludedPaths.Length
        invariant ScanFrom(p, entries, i) == ScanFrom(p, entries, 0)
        invariant excludedPaths[..] == StripFirst(entries, i)
      {
        ScanStep(p, entries, i);
        excludedPaths[i] := StripSlash(excludedPaths[i]);
        StripFirstStep(entries, i);
        if WildcardFires(p, excludedPaths[i]) {
          return true;
        }
      }
      return false;
    }

    /** `authorization_header`: the `Authorization` header's value, if there is a request carrying one. */
    function AuthorizationHeader(request: Option<Request>): (value: Option<string>)
      ensures value.Some? <==> request.Some? && "Authorization" in request.value.headers
      ensures value.Some? ==> value.value == request.value.headers["Authorization"]
    {
      if request.None? then None
      else if "Authorization" !in request.value.headers then None
      else Some(request.value.headers["Authorization"])
    }

    /** `current_user`: this base class knows no user. */
    function CurrentUser<User>(request: Option<Request>): (user: Option<User>)
      ensures user == None
    {
      None
    }
  }

  /** Without a path, or with a `None` or empty excluded list, authentication is required. */
  lemma RequiredWithoutPathOrExclusions(path: Option<string>, excluded: Option<seq<string>>)
    requires path.None? || excluded.None? || excluded == Some([])
    ensures Decision(path, excluded) == Decided(true)
  {
  }

  /**
    `require_auth` raises `IndexError` exactly when the path is empty, or the
    loop reaches an entry `""` or `"/"` before any wildcard test fires.
   */
  lemma IndexErrorExactly(path: string, entries: seq<string>)
    requires |entries| > 0
    ensures Decision(Some(path), Some(entries)) == IndexError <==>
      |path| == 0 ||
      exists k :: 0 <= k < |entries| && !ValidEntry(entries[k])
        && forall j :: 0 <= j < k ==> !WildcardFires(StripSlash(path), StripSlash(entries[j]))
  {
    var p := StripSlash(path);
    ScanFromCharacterized(p, entries, 0);
  }

  /**
    When it does not raise, `require_auth` answers False exactly when some
    entry's wildcard test fires or the path equals some entry, each with one
    trailing `/` stripped.
   */
  lemma ExcludedExactly(path: string, entries: seq<string>)
    requires |entries| > 0
    requires Decision(Some(path), Some(entries)) != IndexError
    ensures Decision(Some(path), Some(entries)).Decided?
    ensures Decision(Some(path), Some(entries)) == Decided(false) <==>
      (exists j :: 0 <= j < |entries| && WildcardFires(StripSlash(path), StripSlash(entries[j])))
      || (exists j :: 0 <= j < |entries| && StripSlash(entries[j]) == StripSlash(path))
  {
    var p := StripSlash(path);
    ScanFromCharacterized(p, entries, 0);
    var stripped := StripFirst(entries, |entries|);
    if p in stripped {
      var j :| 0 <= j < |stripped| && stripped[j] == p;
      assert StripSlash(entries[j]) == p;
    }
    if exists j :: 0 <= j < |entries| && StripSlash(entries[j]) == p {
      var j :| 0 <= j < |entries| && StripSlash(entries[j]) == p;
      assert stripped[j] == p;
    }
  }

  /** A path and an entry that differ only by one trailing `/` match: the path is excluded. */
  lemma TrailingSlashIgnored(path: string, entries: seq<string>, j: nat)
    requires j < |entries|
    requires Decision(Some(path), Some(entries)) != IndexError
    requires StripSlash(path) == StripSlash(entries[j])
    ensures Decision(Some(path), Some(entries)) == Decided(false)
  {
    ExcludedExactly(path, entries);
  }

  /** `/api/v1/status` is excluded by `/api/v1/status/`, and the other way round. */
  lemma StatusExcludedEitherWay()
    ensures Decision(Some("/api/v1/status"), Some(["/api/v1/status/"])) == Decided(false)
    ensures Decision(Some("/api/v1/status/"), Some(["/api/v1/status"])) == Decided(false)
  {
    var bare, slashed := "/api/v1/status", "/api/v1/status/";
    assert bare[|bare| - 1] == 's' && slashed[|slashed| - 1] == '/';
    assert StripSlash(slashed) == bare == StripSlash(bare);
    assert ScanFrom(bare, [slashed], 0) == Passes;
    assert ScanFrom(bare, [bare], 0) == Passes;
    TrailingSlashIgnored(bare, [slashed], 0);
    TrailingSlashIgnored(slashed, [bare], 0);
  }

  /**
    The wildcard test is containment, not a prefix test: the short path `/a`
    occurs in `/api/v1/stat`, so `/api/v1/stat*` excludes it.
   */
  lemma ShortPathExcludedByWildcard()
    ensures Decision(Some("/a"), Some(["/api/v1/stat*"])) == Decided(false)
  {
  }

  /**
    The prefix reading of a wildcard entry is covered: `e` ending in `*` fires
    for every path that starts with `e` minus its last two characters, and for
    every path that is itself a prefix of that stem.
   */
  lemma WildcardCoversPrefixes(path: string, e: string)
    requires |e| >= 2 && e[|e| - 1] == '*'
    requires e[..|e| - 2] <= path || path <= e[..|e| - 2]
    ensures WildcardFires(path, e)
  {
    var stem := e[..|e| - 2];
    if stem <= path {
      assert PySliceTo(path, |e| - 2) == stem;
    } else {
      assert PySliceTo(path, |e| - 2) == path;
    }
    assert stem <= e[..|e| - 1];
  }

  /** A two-character wildcard entry such as `a*` excludes every non-empty path. */
  lemma TwoCharacterWildcardExcludesAll(path: string, c: char)
    requires |path| > 0
    ensures Decision(Some(path), Some([[c, '*']])) == Decided(false)
  {
  }
}

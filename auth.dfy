/** The base authenticator of the session-authentication service: which
    request paths need authentication, where the Authorization header is,
    and a current user that the base class never knows. */
module Auth {
  import opened Common

  /** `s.rstrip('/')`: `s` without its trailing slashes. */
  function StripSlashes(s: string): (r: string)
    ensures r <= s
    ensures |r| == 0 || r[|r| - 1] != '/'
    ensures forall i :: |r| <= i < |s| ==> s[i] == '/'
    decreases |s|
  {
    if |s| > 0 && s[|s| - 1] == '/' then StripSlashes(s[..|s| - 1]) else s
  }

  /** Whether `path` needs authentication. An absent path, an absent list and
      an empty list all fail closed; otherwise the path is exempt exactly when
      it equals an excluded path once trailing slashes are stripped from both. */
  function RequireAuth(path: Option<string>, excludedPaths: Option<seq<string>>): (r: bool)
    ensures path.None? || excludedPaths.None? ==> r
    ensures excludedPaths == Some([]) ==> r
    ensures path.Some? && excludedPaths.Some? && |excludedPaths.value| > 0 ==>
      (!r <==> exists i :: 0 <= i < |excludedPaths.value| &&
                 StripSlashes(excludedPaths.value[i]) == StripSlashes(path.value))
  {
    if path.None? || excludedPaths.None? || |excludedPaths.value| == 0 then true
    else
      var ex := excludedPaths.value;
      var stripped := seq(|ex|, i requires 0 <= i < |ex| => StripSlashes(ex[i]));
      assert forall i :: 0 <= i < |ex| ==> stripped[i] == StripSlashes(ex[i]);
      StripSlashes(path.value) !in stripped
  }

  /** One more trailing slash is stripped like the others. */
  lemma StripSlashesAppend(s: string)
    ensures StripSlashes(s + "/") == StripSlashes(s)
  {
    assert (s + "/")[..|s|] == s;
  }

  /** A trailing slash on the path never changes the decision. */
  lemma RequireAuthPathSlash(path: string, excludedPaths: Option<seq<string>>)
    ensures RequireAuth(Some(path + "/"), excludedPaths) == RequireAuth(Some(path), excludedPaths)
  {
    StripSlashesAppend(path);
  }

  /** A trailing slash on an excluded entry never changes the decision. */
  lemma RequireAuthEntrySlash(path: Option<string>, excludedPaths: seq<string>, k: nat)
    requires k < |excludedPaths|
    ensures RequireAuth(path, Some(excludedPaths[k := excludedPaths[k] + "/"])) ==
            RequireAuth(path, Some(excludedPaths))
  {
    StripSlashesAppend(excludedPaths[k]);
    var ex' := excludedPaths[k := excludedPaths[k] + "/"];
    assert forall i :: 0 <= i < |ex'| ==> StripSlashes(ex'[i]) == StripSlashes(excludedPaths[i]);
  }

  /** Every entry of `a` also occurs in `b`. */
  predicate Covers(b: seq<string>, a: seq<string>)
  {
    forall i :: 0 <= i < |a| ==> a[i] in b
  }

  /** Listing more entries can only exempt more paths: a path exempt under a
      non-empty list stays exempt under any list that contains its entries. */
  lemma RequireAuthMonotonic(path: Option<string>, excludedPaths: seq<string>, more: seq<string>)
    requires |excludedPaths| > 0 && Covers(more, excludedPaths)
    ensures !RequireAuth(path, Some(excludedPaths)) ==> !RequireAuth(path, Some(more))
  {
    if !RequireAuth(path, Some(excludedPaths)) {
      var i :| 0 <= i < |excludedPaths| && StripSlashes(excludedPaths[i]) == StripSlashes(path.value);
      var j :| 0 <= j < |more| && more[j] == excludedPaths[i];
    }
  }

  /** Appending one entry is the special case the monotonicity is about. */
  lemma RequireAuthAppend(path: Option<string>, excludedPaths: seq<string>, entry: string)
    requires |excludedPaths| > 0
    ensures !RequireAuth(path, Some(excludedPaths)) ==> !RequireAuth(path, Some(excludedPaths + [entry]))
  {
    var more := excludedPaths + [entry];
    assert forall i :: 0 <= i < |excludedPaths| ==> excludedPaths[i] == more[i];
    RequireAuthMonotonic(path, excludedPaths, more);
  }

  /** The order and multiplicity of the excluded entries are irrelevant:
      lists with the same entries give the same decision. */
  lemma RequireAuthReorder(path: Option<string>, excludedPaths: seq<string>, other: seq<string>)
    requires forall s :: s in excludedPaths <==> s in other
    ensures RequireAuth(path, Some(excludedPaths)) == RequireAuth(path, Some(other))
  {
    assert |other| > 0 ==> other[0] in excludedPaths;
    if |excludedPaths| > 0 {
      assert excludedPaths[0] in other;
      RequireAuthMonotonic(path, excludedPaths, other);
      RequireAuthMonotonic(path, other, excludedPaths);
    }
  }

  /** Paths exempt after stripping trailing slashes. */
  lemma RequireAuthExemptExamples()
    ensures !RequireAuth(Some("/a"), Some(["/a"]))
    ensures !RequireAuth(Some("/a/"), Some(["/a"]))
    ensures !RequireAuth(Some("/a"), Some(["/a//"]))
  {
    assert StripSlashes("/a") == "/a";
    StripSlashesAppend("/a");
    StripSlashesAppend("/a/");
    assert "/a" + "/" == "/a/" && "/a/" + "/" == "/a//";
    assert StripSlashes(["/a"][0]) == StripSlashes("/a");
    assert StripSlashes(["/a//"][0]) == StripSlashes("/a");
  }

  /** Exemption is by equality, not by prefix, and fails closed. */
  lemma RequireAuthRequiredExamples()
    ensures RequireAuth(None, Some([]))
    ensures RequireAuth(Some("/a"), Some([]))
    ensures RequireAuth(Some("/ab"), Some(["/a"]))
    ensures RequireAuth(Some("/a"), Some(["/ab/"]))
  {
    assert StripSlashes("/a") == "/a";
    assert StripSlashes("/ab") == "/ab";
    StripSlashesAppend("/ab");
    assert "/ab" + "/" == "/ab/";
  }

  /** The request's Authorization header, unchanged, or `None` for an absent
      request or header. */
  function AuthorizationHeader(request: Option<Request>): (r: Option<string>)
    ensures r.Some? <==> request.Some? && "Authorization" in request.value.headers
    ensures r.Some? ==> r.value == request.value.headers["Authorization"]
  {
    if request.None? then None
    else if "Authorization" !in request.value.headers then None
    else Some(request.value.headers["Authorization"])
  }

  /** The base class authenticates nobody. */
  function CurrentUser<U>(request: Option<Request>): (r: Option<U>)
    ensures r.None?
  {
    None
  }
}

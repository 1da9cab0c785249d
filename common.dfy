/** Types shared by the installation registry, the custom-installation
    resolver and the frontend helpers, and the few string and path operations
    of Go's standard library that they rely on. */
module Common {

  datatype Option<+T> = None | Some(value: T)

  /** The error returns of the core, one constructor per place that fails. */
  datatype Error =
    | InvalidInstallation(path: string)
    | InstallationNotFound(path: string)
    | NoInstallationSelected
    | AddToCliFailed(cause: Error)
    | SaveInstallationsFailed(cause: Error)
    | SaveEmptyInstallationsFailed(cause: Error)
    | WipeFailed(path: string, cause: Error)
    | InstallPathDoesNotExist(path: string)
    | AddCustomFailed(path: string, cause: Error)
    | RegisterFailed(cause: Error)
    | ForeignError(message: string)
    | InvalidInstallType

  datatype Result<+T> = Ok(value: T) | Err(error: Error)

  /** A Go `error` return: nil or an error. */
  datatype Outcome = Pass | Fail(error: Error)

  // ---------------------------------------------------------------------
  // Installations and their metadata

  datatype LocationType = Local | Remote

  /** `common.Installation`: a discovered or registered game installation. */
  datatype Installation = Installation(
    path: string,
    version: int,
    installType: string,
    location: LocationType,
    branch: string,
    launcher: string,
    launchPath: seq<string>)

  datatype InstallState = Unknown | Valid | Invalid

  /** What the metadata cache stores for one path: a state and, once
      discovery has run, an installation snapshot. */
  datatype InstallationMetadata = InstallationMetadata(state: InstallState, info: Option<Installation>)

  const CustomLauncher: string := "Custom"
  const InstallTypeWindowsClient: string := "WindowsClient"
  const InstallTypeWindowsServer: string := "WindowsServer"
  const InstallTypeLinuxServer: string := "LinuxServer"
  const BranchStable: string := "Stable"

  // ---------------------------------------------------------------------
  // The file system as the core observes it

  /** One entry of a directory listing as `filepath.Walk` sees it: a file (or
      anything else that is not a directory), a directory with its listing
      (`readable` false when the listing could not be read), or a name whose
      `Lstat` failed. */
  datatype Entry =
    | File(name: string)
    | Dir(name: string, readable: bool, children: seq<Entry>)
    | Unstattable(name: string)

  /** `os.Stat` succeeds exactly for `existing`, fails with an error other
      than not-exist for `statFailing`, and reports not-exist for every other
      path. `tree` is what `filepath.Walk` finds at the installation path,
      its listings in the lexical order Walk visits them. `changelists` holds,
      for each file that can be read and decoded as a version file, its
      `Changelist` field. */
  datatype FileSystem = FileSystem(
    existing: set<string>,
    statFailing: set<string>,
    tree: Entry,
    changelists: map<string, int>)

  datatype StatResult = StatOk | StatNotExist | StatOtherError

  function Stat(fs: FileSystem, path: string): StatResult
  {
    if path in fs.existing then StatOk
    else if path in fs.statFailing then StatOtherError
    else StatNotExist
  }

  /** The first of `paths` that lies in `s`: with `fs.existing`, the first
      path whose `Stat` succeeds. */
  function FirstIn(paths: seq<string>, s: set<string>): (r: Option<nat>)
    ensures r.Some? ==> r.value < |paths| && paths[r.value] in s
    ensures r.Some? ==> forall j :: 0 <= j < r.value ==> paths[j] !in s
    ensures r.None? ==> forall j :: 0 <= j < |paths| ==> paths[j] !in s
  {
    if paths == [] then None
    else if paths[0] in s then Some(0)
    else match FirstIn(paths[1..], s)
      case Some(i) => Some(i + 1)
      case None => None
  }

  /** The first index of `paths` in `s` is the one before which none is. */
  lemma FirstInAt(paths: seq<string>, s: set<string>, k: nat)
    requires k < |paths| && paths[k] in s
    requires forall j :: 0 <= j < k ==> paths[j] !in s
    ensures FirstIn(paths, s) == Some(k)
  {
  }

  /** Two sequence identities, as lemmas so that a proof can name them. */
  lemma ConcatAssoc<T>(a: seq<T>, b: seq<T>, c: seq<T>)
    ensures a + (b + c) == (a + b) + c
  {
  }

  lemma ConcatEmpty<T>(a: seq<T>)
    ensures a + [] == a
  {
  }

  // ---------------------------------------------------------------------
  // Strings and paths

  const Separator: char := '/'

  /** `unicode.ToLower` as far as it yields an ASCII letter: the ASCII
      capitals, U+0130 (capital I with dot above, to 'i') and U+212A (the
      Kelvin sign, to 'k'), which are the only other code points Go maps into
      ASCII. Every other letter is left as it is; Go maps it, if at all, to
      another non-ASCII letter, which no comparison with the ASCII names and
      "server" can tell apart from the original. */
  function LowerChar(c: char): char
  {
    if 'A' <= c <= 'Z' then (c as int + 32) as char
    else if c == '\U{0130}' then 'i'
    else if c == '\U{212A}' then 'k'
    else c
  }

  /** `strings.ToLower`, letter by letter. */
  function Lower(s: string): string
  {
    seq(|s|, i requires 0 <= i < |s| => LowerChar(s[i]))
  }

  /** `strings.Contains(s, sub)`. */
  predicate Contains(s: string, sub: string)
    decreases |s|
  {
    (|sub| <= |s| && s[..|sub|] == sub) || (|s| > 0 && Contains(s[1..], sub))
  }

  /** `filepath.Join`: the non-empty parts, separated by `Separator`. */
  function Join(parts: seq<string>): (r: string)
    ensures (exists i :: 0 <= i < |parts| && parts[i] != "") ==> r != ""
  {
    if parts == [] then ""
    else
      var rest := Join(parts[1..]);
      if parts[0] == "" then rest
      else if rest == "" then parts[0]
      else parts[0] + [Separator] + rest
  }

  /** `filepath.Base`: what follows the last separator. */
  function Base(p: string): (b: string)
    ensures |b| <= |p| && b == p[|p| - |b|..]
  {
    if p == [] then []
    else if p[|p| - 1] == Separator then []
    else
      var front := Base(p[..|p| - 1]);
      assert p[..|p| - 1][|p| - 1 - |front|..] + [p[|p| - 1]] == p[|p| - 1 - |front|..];
      front + [p[|p| - 1]]
  }

  /** Every letter of a contained string occurs in the containing one. */
  lemma {:induction false} ContainsHasChars(s: string, sub: string, j: nat)
    requires Contains(s, sub) && j < |sub|
    ensures sub[j] in s
    decreases |s|
  {
    if |sub| <= |s| && s[..|sub|] == sub {
      assert s[j] == sub[j];
    } else {
      ContainsHasChars(s[1..], sub, j);
      assert sub[j] in s[1..];
    }
  }

  lemma MissingChar(s: string, sub: string, j: nat)
    requires j < |sub| && sub[j] !in s
    ensures !Contains(s, sub)
  {
    if Contains(s, sub) { ContainsHasChars(s, sub, j); }
  }

  lemma LowerSuffix(s: string, k: nat)
    requires k <= |s|
    ensures Lower(s[k..]) == Lower(s)[k..]
  {
  }

  /** A string contains whatever any of its suffixes contains. */
  lemma {:induction false} ContainsSuffix(s: string, k: nat, sub: string)
    requires k <= |s|
    requires Contains(s[k..], sub)
    ensures Contains(s, sub)
  {
    if k > 0 {
      assert s[1..][k - 1..] == s[k..];
      ContainsSuffix(s[1..], k - 1, sub);
    } else {
      assert s[k..] == s;
    }
  }

  /** A letter other than the separator occurs in a joined path exactly
      when it occurs in one of the parts. */
  lemma {:induction false} JoinChars(parts: seq<string>, c: char)
    requires c != Separator
    ensures c in Join(parts) <==> exists i :: 0 <= i < |parts| && c in parts[i]
  {
    if parts != [] {
      JoinChars(parts[1..], c);
      assert forall i :: 1 <= i < |parts| ==> parts[1..][i - 1] == parts[i];
      if c in Join(parts[1..]) {
        var i :| 0 <= i < |parts[1..]| && c in parts[1..][i];
        assert c in parts[i + 1];
      }
    }
  }

  /** Lower-casing works letter by letter, so it distributes over `+`. */
  lemma LowerConcat(a: string, b: string)
    ensures Lower(a + b) == Lower(a) + Lower(b)
  {
  }

  /** An occurrence of `sub` in `a + [c] + b` lies within `a` or within `b`
      when `c` does not occur in `sub`. */
  lemma {:induction false} ContainsSplit(a: string, c: char, b: string, sub: string)
    requires c !in sub
    requires Contains(a + [c] + b, sub)
    ensures Contains(a, sub) || Contains(b, sub)
    decreases |a|
  {
    var s := a + [c] + b;
    assert |a| < |sub| <= |s| ==> s[..|sub|] != sub by {
      if |a| < |sub| <= |s| {
        assert s[..|sub|][|a|] == c;
      }
    }
    if |sub| <= |s| && s[..|sub|] == sub {
      if |sub| <= |a| {
        assert a[..|sub|] == s[..|sub|];
      }
    } else if a == [] {
      assert s[1..] == b;
    } else {
      assert s[1..] == a[1..] + [c] + b;
      ContainsSplit(a[1..], c, b, sub);
    }
  }

  /** Joining a leading part onto a non-empty rest. */
  lemma JoinCons(p: string, rest: seq<string>)
    requires Join(rest) != ""
    ensures Join([p] + rest) == if p == "" then Join(rest) else p + [Separator] + Join(rest)
  {
    assert ([p] + rest)[1..] == rest;
  }

  /** Different non-empty tails stay different below a common first part. */
  lemma JoinKeepsApart(p: string, rest1: seq<string>, rest2: seq<string>)
    requires Join(rest1) != "" && Join(rest2) != "" && Join(rest1) != Join(rest2)
    ensures Join([p] + rest1) != Join([p] + rest2)
  {
    JoinCons(p, rest1);
    JoinCons(p, rest2);
    if p != "" {
      assert (p + [Separator] + Join(rest1))[|p| + 1..] == Join(rest1);
      assert (p + [Separator] + Join(rest2))[|p| + 1..] == Join(rest2);
    }
  }

  /** A lower-case letter occurs in `Lower(s)` exactly when it or its
      upper-case form occurs in `s`. */
  lemma LowerChars(s: string, c: char)
    requires 'a' <= c <= 'z' && c != 'i' && c != 'k'
    ensures c in Lower(s) <==> c in s || (c as int - 32) as char in s
  {
    if c in Lower(s) {
      var i :| 0 <= i < |s| && Lower(s)[i] == c;
      assert s[i] == c || s[i] == (c as int - 32) as char;
    }
    if c in s {
      var i :| 0 <= i < |s| && s[i] == c;
      assert Lower(s)[i] == c;
    }
    if (c as int - 32) as char in s {
      var i :| 0 <= i < |s| && s[i] == (c as int - 32) as char;
      assert Lower(s)[i] == c;
    }
  }
}

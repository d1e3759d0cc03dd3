/** Workspace snapshots addressed by one path instead of tenant and agent: the upgrade builds
    the path, the downgrade takes it apart again. */
module WorkspacePath {
  import opened Prelude
  import opened Text

  datatype Owner = Owner(tenant: Option<string>, agent: string)

  /** The directory all workspaces live in; the round trips hold for any name without a slash. */
  const ROOT: string := "workspace"

  function Prefix(root: string): string { "/" + root + "/" }

  function Encode(root: string, o: Owner): string {
    if o.tenant.Some? then Prefix(root) + (o.tenant.value + "/" + o.agent) else Prefix(root) + o.agent
  }

  /** SPLIT_PART at slashes: fields count from one, and a missing field is empty. */
  function SplitPart(s: string, n: nat): string
    requires n >= 1
  {
    if n <= |Split('/', s)| then Split('/', s)[n - 1] else ""
  }

  /** The downgrade; at three slashes or more the third field is the tenant. */
  function Decode(path: string): Owner {
    if Count('/', path) >= 3 then Owner(Some(SplitPart(path, 3)), SplitPart(path, 4))
    else Owner(None, SplitPart(path, 3))
  }

  /* ---- round trips ---- */

  lemma SplitOfPrefixed(root: string, rest: string)
    requires '/' !in root
    ensures Split('/', Prefix(root) + rest) == ["", root] + Split('/', rest)
  {
    var tail := root + "/" + rest;
    assert Prefix(root) + rest == ['/'] + tail;
    SplitOfCons('/', '/', tail);
    SplitOfJoined('/', root, rest);
    SplitIsExact('/', root);
  }

  predicate IsPlain(o: Owner) {
    (o.tenant.Some? ==> '/' !in o.tenant.value) && '/' !in o.agent
  }

  lemma SplitOfEncoded(root: string, o: Owner)
    requires '/' !in root
    ensures Split('/', Encode(root, o)) == ["", root] + (if o.tenant.Some? then Split('/', o.tenant.value) else []) + Split('/', o.agent)
  {
    if o.tenant.Some? {
      SplitOfPrefixed(root, o.tenant.value + "/" + o.agent);
      SplitOfJoined('/', o.tenant.value, o.agent);
    } else {
      SplitOfPrefixed(root, o.agent);
    }
  }

  /** The downgrade recovers an owner exactly when neither id contains a slash. */
  lemma DowngradeRestores(root: string, o: Owner)
    requires '/' !in root
    ensures Decode(Encode(root, o)) == o <==> IsPlain(o)
  {
    var fields := Split('/', Encode(root, o));
    SplitOfEncoded(root, o);
    SplitIsExact('/', Encode(root, o));
    SplitIsExact('/', o.agent);
    if o.tenant.Some? {
      SplitIsExact('/', o.tenant.value);
      assert fields[2] == Split('/', o.tenant.value)[0];
      if '/' !in o.tenant.value { assert fields[3] == Split('/', o.agent)[0]; }
    } else {
      assert fields[2] == Split('/', o.agent)[0];
    }
  }

  /** Owners without slashes never share a path. */
  lemma PathsAreUnique(root: string, a: Owner, b: Owner)
    requires '/' !in root && IsPlain(a) && IsPlain(b)
    ensures Encode(root, a) == Encode(root, b) <==> a == b
  {
    DowngradeRestores(root, a);
    DowngradeRestores(root, b);
  }

  lemma DecodedIsPlain(path: string)
    ensures IsPlain(Decode(path))
  {
    SplitIsExact('/', path);
  }

  /** Upgrading again after a downgrade gives the path back exactly when it lies under the
      workspace root with at most one slash below it. */
  lemma UpgradeRestores(root: string, path: string)
    requires '/' !in root
    ensures Encode(root, Decode(path)) == path <==> Prefix(root) <= path && Count('/', path) <= 3
  {
    SplitIsExact('/', path);
    var o := Decode(path);
    if Encode(root, o) == path {
      DecodedIsPlain(path);
      SplitOfEncoded(root, o);
      SplitIsExact('/', o.agent);
      if o.tenant.Some? { SplitIsExact('/', o.tenant.value); }
    }
    if Prefix(root) <= path && Count('/', path) <= 3 {
      var rest := path[|Prefix(root)|..];
      assert path == Prefix(root) + rest;
      SplitOfPrefixed(root, rest);
      SplitIsExact('/', rest);
      ShortPathRestored(root, path, rest);
    }
  }

  lemma ShortPathRestored(root: string, path: string, rest: string)
    requires path == Prefix(root) + rest && Split('/', path) == ["", root] + Split('/', rest)
    requires |Split('/', path)| == Count('/', path) + 1 <= 4 && Join('/', Split('/', rest)) == rest
    ensures Encode(root, Decode(path)) == path
  {
    var f := Split('/', rest);
    assert Split('/', path)[2] == f[0];
    if |f| == 2 {
      assert Split('/', path)[3] == f[1] && f[1..] == [f[1]];
      assert Join('/', f) == f[0] + "/" + f[1];
    }
  }

  /** Both round trips, for the repository's root. */
  lemma WorkspaceRoundTrips(o: Owner, path: string)
    ensures Decode(Encode(ROOT, o)) == o <==> IsPlain(o)
    ensures Encode(ROOT, Decode(path)) == path <==> Prefix(ROOT) <= path && Count('/', path) <= 3
  {
    DowngradeRestores(ROOT, o);
    UpgradeRestores(ROOT, path);
  }
}

/**
 * The installer's command-line argument: which nodeGame version is installed,
 * whether it is the development build, and the name of the folder the
 * installation goes into.
 */
module VersionArg {
  import opened JsText

  /** The version installed when none is requested, and for `dev`. */
  const InstallerVersion: string := "4.0.4"

  /**
   * What the argument decides: the `version` text, the `@`-prefixed
   * `requestedVersion` handed to npm, and the development flag.
   */
  datatype Request = Request(version: string, requestedVersion: string, isDev: bool)

  datatype ArgError =
    | MissingAtSign                     // "version must start with @"
    | BadVersionLength(version: string) // "invalid version number"

  datatype Outcome = Accepted(req: Request) | Rejected(err: ArgError)

  /** JavaScript truthiness of `process.argv[2]`: absent and "" are falsy. */
  predicate Given(arg: Option<string>) {
    arg.Some? && arg.value != ""
  }

  /**
   * What every accepted request satisfies: the requested version is the
   * version behind an `@`, the version is one to five code units long, and
   * the development build is always the installer's own version.
   */
  predicate WellFormed(req: Request) {
    && req.requestedVersion == "@" + req.version
    && 1 <= Utf16Length(req.version) <= 5
    && (req.isDev ==> req.version == InstallerVersion)
  }

  /**
   * The argument handling at the top of the installer. A rejection stands
   * for the error message followed by the early `return`.
   */
  function ParseArg(arg: Option<string>): (r: Outcome)
    ensures r.Accepted? ==> WellFormed(r.req)
    ensures r.Accepted? ==> (r.req.isDev <==> arg == Some("dev"))
    ensures r.Accepted? && Given(arg) && !r.req.isDev ==> arg == Some(r.req.requestedVersion)
    ensures r.Rejected? ==> Given(arg) && arg.value != "dev"
  {
    if !Given(arg) then
      Accepted(Request(InstallerVersion, "@" + InstallerVersion, false))
    else if arg.value == "dev" then
      Accepted(Request(InstallerVersion, "@" + InstallerVersion, true))
    else if arg.value[0] != '@' then
      Rejected(MissingAtSign)
    else
      var version := arg.value[1..];
      var n := Utf16Length(version);
      if n < 1 || n > 5 then Rejected(BadVersionLength(version))
      else
        assert arg.value == "@" + version;
        Accepted(Request(version, arg.value, false))
  }

  /** `VERSION`: "v" and the version, with "-dev" for the development build. */
  function DisplayVersion(req: Request): (d: string)
    ensures |d| == |req.version| + (if req.isDev then 5 else 1)
    ensures d[..|req.version| + 1] == "v" + req.version
    ensures req.isDev ==> d[|d| - 4..] == "-dev"
  {
    "v" + req.version + (if req.isDev then "-dev" else "")
  }

  /** `NODEGAME_AND_VERSION`: the name of the installation folder. */
  function FolderName(req: Request): (f: string)
    ensures |f| >= 10 && f[..10] == "nodegame-v"
    ensures f[9..] == DisplayVersion(req)
  {
    "nodegame-" + DisplayVersion(req)
  }

  /** No argument, an empty one, or `dev`: the installer's own version. */
  lemma DefaultRequest(arg: Option<string>)
    requires !Given(arg) || arg == Some("dev")
    ensures ParseArg(arg).Accepted?
    ensures ParseArg(arg).req.version == "4.0.4"
    ensures ParseArg(arg).req.requestedVersion == "@4.0.4"
    ensures ParseArg(arg).req.isDev <==> arg == Some("dev")
    ensures FolderName(ParseArg(arg).req)
      == if arg == Some("dev") then "nodegame-v4.0.4-dev" else "nodegame-v4.0.4"
  {
  }

  /** Any other argument that does not start with `@` is refused. */
  lemma RejectsWithoutAtSign(a: string)
    requires a != "" && a != "dev" && a[0] != '@'
    ensures ParseArg(Some(a)) == Rejected(MissingAtSign)
  {
  }

  /**
   * `@v` is accepted exactly when `v` is one to five code units long, and
   * then `v` is the version and `@v` the requested version.
   */
  lemma {:induction false} AtSignForm(v: string)
    ensures ParseArg(Some("@" + v)).Accepted? <==> 1 <= Utf16Length(v) <= 5
    ensures ParseArg(Some("@" + v)).Accepted? ==>
      ParseArg(Some("@" + v)).req == Request(v, "@" + v, false)
    ensures ParseArg(Some("@" + v)).Rejected? ==>
      ParseArg(Some("@" + v)).err == BadVersionLength(v)
  {
    assert ("@" + v)[1..] == v;
  }

  /**
   * The requested version handed to npm is itself an argument the installer
   * accepts, and reading it back gives the same version (without `dev`).
   */
  lemma {:induction false} RequestedVersionRoundTrip(req: Request)
    requires WellFormed(req)
    ensures ParseArg(Some(req.requestedVersion)) == Accepted(req.(isDev := false))
  {
    AtSignForm(req.version);
  }

  /**
   * The folder name tells apart every two well-formed requests: the
   * development build of 4.0.4 cannot collide with a plain version
   * "4.0.4-dev", which is too long to be accepted.
   */
  lemma {:induction false} FolderNameInjective(r1: Request, r2: Request)
    requires WellFormed(r1) && WellFormed(r2)
    requires FolderName(r1) == FolderName(r2)
    ensures r1.version == r2.version && r1.isDev == r2.isDev
  {
    var d1, d2 := DisplayVersion(r1), DisplayVersion(r2);
    assert d1 == FolderName(r1)[9..] == FolderName(r2)[9..] == d2;
    assert |r1.version| <= 5 && |r2.version| <= 5;
    if r1.isDev != r2.isDev {
      assert false;
    } else {
      var n := |r1.version| + 1;
      assert r1.version == ("v" + r1.version)[1..] == d1[..n][1..];
      assert r2.version == ("v" + r2.version)[1..] == d2[..n][1..];
    }
  }

  /** Every folder name starts with "nodegame-v" and is 11 to 19 characters long. */
  lemma FolderNameShape(req: Request)
    requires WellFormed(req)
    ensures FolderName(req)[..10] == "nodegame-v"
    ensures 11 <= |FolderName(req)| <= 19
  {
  }
}

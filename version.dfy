/** The script's module-level configuration, made explicit. */
module Settings {

  /** `target_version` and `create_rst`. */
  datatype Config = Config(targetVersion: string, createRst: bool)

  /** The values the script ships with. */
  const Shipped := Config("2.1.1", true)
}

/**
 * Version resolution: a development build derives a PEP 440 beta pre-release
 * (`<release>b<build>`, "Pre-releases" in PEP 440) from the output of `git describe`;
 * a release build uses the configured target version.
 */
module Version {
  import opened Errors
  import opened Text
  import opened Settings

  /** `'PYPI' in os.environ and os.environ['PYPI'] == 'pypitest'`. */
  predicate IsDevVersion(env: map<string, string>) {
    "PYPI" in env && env["PYPI"] == "pypitest"
  }

  /**
   * `development_version_number` once the output of `git describe` is in hand:
   * strip it, split it at every `-`, demand exactly three fields, keep the first two.
   */
  function DevelopmentVersion(describe: string): (r: Result<string>)
    ensures r.Failure? ==> r.error == MalformedVersion
    ensures r.Success? ==> '-' !in r.value
  {
    var fields := Split(Strip(describe), '-');
    if |fields| != 3 then Failure(MalformedVersion)
    else
      assert '-' !in fields[0] && '-' !in fields[1];
      Success(fields[0] + "b" + fields[1])
  }

  /** The version the script hands to `setup`; only a development build can fail, and only on a malformed describe line. */
  function ResolveVersion(env: map<string, string>, describe: string, cfg: Config): (r: Result<string>)
    ensures r.Failure? ==> IsDevVersion(env) && r.error == MalformedVersion
  {
    if IsDevVersion(env) then DevelopmentVersion(describe) else Success(cfg.targetVersion)
  }

  /** A well-formed describe line `release-build-commitish`, newline and all, gives `release` b `build`. */
  lemma DevelopmentVersionOfDescribe(release: string, build: string, commitish: string, ws: string)
    requires '-' !in release && '-' !in build && '-' !in commitish
    requires release != [] && !IsSpace(release[0])
    requires commitish != [] && !IsSpace(commitish[|commitish| - 1])
    requires AllSpace(ws)
    ensures DevelopmentVersion(release + "-" + build + "-" + commitish + ws) == Success(release + "b" + build)
  {
    var line := release + "-" + build + "-" + commitish;
    assert line[|line| - 1] == commitish[|commitish| - 1];
    assert line[0] == release[0];
    StripPadded(line, ws);
    var parts := [release, build, commitish];
    JoinThree(release, build, commitish);
    SplitJoin(parts, '-');
    assert Split(Strip(line + ws), '-') == parts;
  }

  lemma JoinThree(a: string, b: string, c: string)
    ensures Join([a, b, c], '-') == a + "-" + b + "-" + c
  {
    assert [a, b, c][1..] == [b, c];
    assert [b, c][1..] == [c];
    assert Join([b, c], '-') == b + "-" + c;
    assert Join([a, b, c], '-') == a + "-" + (b + "-" + c);
  }

  /** Resolution fails exactly when the stripped describe line does not hold two dashes. */
  lemma DevelopmentVersionFailsIff(describe: string)
    ensures DevelopmentVersion(describe).Failure? <==> multiset(Strip(describe))['-'] != 2
  {
    SplitCount(Strip(describe), '-');
  }

  /** Whatever succeeds came from a line of three dash-free fields, and keeps the first two. */
  lemma DevelopmentVersionSucceeds(describe: string)
    requires DevelopmentVersion(describe).Success?
    ensures exists release, build, commitish ::
      && '-' !in release && '-' !in build && '-' !in commitish
      && Strip(describe) == release + "-" + build + "-" + commitish
      && DevelopmentVersion(describe).value == release + "b" + build
  {
    var fields := Split(Strip(describe), '-');
    JoinSplit(Strip(describe), '-');
    assert fields == [fields[0], fields[1], fields[2]];
    assert Join(fields, '-') == fields[0] + "-" + fields[1] + "-" + fields[2] by {
      assert fields[1..][1..] == fields[2..] == [fields[2]];
      assert Join(fields[2..], '-') == fields[2];
      assert Join(fields[1..], '-') == fields[1] + "-" + fields[2];
    }
  }

  /** A describe line of a development checkout. */
  lemma DevelopmentVersionExample(describe: string)
    requires describe == "1.2.3-4-gabc1234\n"
    ensures DevelopmentVersion(describe) == Success("1.2.3b4")
  {
    DevelopmentVersionOfDescribe("1.2.3", "4", "gabc1234", "\n");
    DescribeSpelledOut();
  }

  lemma DescribeSpelledOut()
    ensures "1.2.3" + "-" + "4" + "-" + "gabc1234" + "\n" == "1.2.3-4-gabc1234\n"
    ensures "1.2.3" + "b" + "4" == "1.2.3b4"
  {
  }

  /** A describe line with only two fields, as on a commit that is itself tagged (`release-build`), is malformed. */
  lemma TwoFieldsMalformed(release: string, build: string)
    requires '-' !in release && '-' !in build
    requires release != [] && !IsSpace(release[0])
    requires build != [] && !IsSpace(build[|build| - 1])
    ensures DevelopmentVersion(release + "-" + build) == Failure(MalformedVersion)
  {
    var line := release + "-" + build;
    assert line[|line| - 1] == build[|build| - 1];
    assert line[0] == release[0];
    StripPadded(line, "");
    assert line + "" == line;
    assert Join([release, build], '-') == line by {
      assert [release, build][1..] == [build];
    }
    SplitJoin([release, build], '-');
  }

  /** `1.2.3-4` has two fields, not three. */
  lemma MalformedVersionExample(describe: string)
    requires describe == "1.2.3-4"
    ensures DevelopmentVersion(describe) == Failure(MalformedVersion)
  {
    TwoFieldsMalformed("1.2.3", "4");
    assert "1.2.3" + "-" + "4" == describe;
  }

  /** Outside development mode the version is the target, whatever `git describe` would say. */
  lemma ReleaseVersionIsTarget(env: map<string, string>, describe: string, cfg: Config)
    requires !IsDevVersion(env)
    ensures ResolveVersion(env, describe, cfg) == Success(cfg.targetVersion)
  {
  }

  /**
   * In development mode, whatever else the environment holds, the version is the one
   * derived from the describe line; a malformed line fails rather than falling back
   * to the target version.
   */
  lemma DevVersionFromDescribe(env: map<string, string>, describe: string, cfg: Config)
    requires IsDevVersion(env)
    ensures ResolveVersion(env, describe, cfg) == DevelopmentVersion(describe)
    ensures ResolveVersion(env, describe, cfg).Failure? <==> multiset(Strip(describe))['-'] != 2
  {
    DevelopmentVersionFailsIff(describe);
  }

  /** Only the `PYPI` variable decides development mode: setting any other variable changes nothing. */
  lemma DevModeReadsOnlyPypi(env: map<string, string>, name: string, value: string)
    requires name != "PYPI"
    ensures IsDevVersion(env[name := value]) == IsDevVersion(env)
  {
  }

  /** A release build of the shipped configuration is version 2.1.1. */
  lemma ShippedReleaseVersion(env: map<string, string>, describe: string)
    requires !IsDevVersion(env)
    ensures ResolveVersion(env, describe, Shipped) == Success("2.1.1")
  {
  }
}

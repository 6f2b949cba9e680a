/**
 * AppManagerFragment: the list of uninstallable apps it keeps in `mAppList`,
 * rebuilt in place by loadUninstallableApps and after a successful uninstall.
 * The package manager's answers and the outcome of the uninstall are inputs.
 */
module AppManagerFragment {
  import opened JavaLang
  import opened AndroidPackages

  /** The fields loadUninstallableApps copies into each AppInfo (the icon and ApplicationInfo object aside). */
  datatype AppInfo = AppInfo(
    appName: string,
    packageName: string,
    versionName: string,
    versionCode: Int32,
    installTime: Int64,
    updateTime: Int64)

  function ToAppInfo(p: PackageInfo): AppInfo {
    AppInfo(p.appLabel, p.packageName, p.versionName, p.versionCode, p.firstInstallTime, p.lastUpdateTime)
  }

  /** The entries built for the given packages, one each, in order. */
  function AppInfos(ps: seq<PackageInfo>): (r: seq<AppInfo>)
    ensures |r| == |ps|
    ensures forall i :: 0 <= i < |ps| ==> r[i] == ToAppInfo(ps[i])
  {
    seq(|ps|, i requires 0 <= i < |ps| => ToAppInfo(ps[i]))
  }

  lemma AppInfosAppend(a: seq<PackageInfo>, b: seq<PackageInfo>)
    ensures AppInfos(a + b) == AppInfos(a) + AppInfos(b)
  {
    var l, r := AppInfos(a + b), AppInfos(a) + AppInfos(b);
    assert |l| == |r|;
    forall i | 0 <= i < |l|
      ensures l[i] == r[i]
    {
      if i < |a| {
        assert (a + b)[i] == a[i];
      } else {
        assert (a + b)[i] == b[i - |a|];
      }
    }
  }

  lemma AppInfosSnoc(ps: seq<PackageInfo>, p: PackageInfo)
    ensures AppInfos(ps + [p]) == AppInfos(ps) + [ToAppInfo(p)]
  {
    AppInfosAppend(ps, [p]);
  }

  /** One more package scanned appends its entry when, and only when, it is third-party. */
  lemma LoadStep(pkgs: seq<PackageInfo>, i: nat, flagSystem: bv32)
    requires i < |pkgs|
    ensures AppInfos(NonSystem(pkgs[..i + 1], flagSystem))
      == AppInfos(NonSystem(pkgs[..i], flagSystem))
         + (if IsSystemApp(pkgs[i], flagSystem) then [] else [ToAppInfo(pkgs[i])])
  {
    NonSystemPrefixStep(pkgs, i, flagSystem);
    if IsSystemApp(pkgs[i], flagSystem) {
      assert NonSystem(pkgs[..i], flagSystem) + [] == NonSystem(pkgs[..i], flagSystem);
    } else {
      AppInfosSnoc(NonSystem(pkgs[..i], flagSystem), pkgs[i]);
    }
  }

  /** How many packages the load gets through: all of them, or those before the one that throws. */
  function Reached(n: nat, failAt: Option<nat>): (k: nat)
    ensures k <= n
    ensures k < n <==> failAt.Some? && failAt.value < n
  {
    if failAt.Some? && failAt.value < n then failAt.value else n
  }

  /**
   * The list after loadUninstallableApps. `failAt` is the index of the package whose
   * processing throws (0 also stands for getInstalledPackages throwing); the list
   * then holds what was appended before it.
   */
  function LoadedList(pkgs: seq<PackageInfo>, flagSystem: bv32, failAt: Option<nat>): seq<AppInfo> {
    AppInfos(NonSystem(pkgs[..Reached(|pkgs|, failAt)], flagSystem))
  }

  /**
   * A load that throws partway leaves a prefix of the complete list, and every entry
   * copies the package name, version and times of a third-party package.
   */
  lemma PartialLoadIsPrefix(pkgs: seq<PackageInfo>, flagSystem: bv32, failAt: Option<nat>)
    ensures var full := LoadedList(pkgs, flagSystem, None);
      var partial := LoadedList(pkgs, flagSystem, failAt);
      |partial| <= |full| && partial == full[..|partial|]
  {
    var reached := Reached(|pkgs|, failAt);
    assert pkgs == pkgs[..reached] + pkgs[reached..];
    assert pkgs[..|pkgs|] == pkgs;
    NonSystemAppend(pkgs[..reached], pkgs[reached..], flagSystem);
    AppInfosAppend(NonSystem(pkgs[..reached], flagSystem), NonSystem(pkgs[reached..], flagSystem));
  }

  /** Every loaded entry is the copy of a listed package without the FLAG_SYSTEM bit. */
  lemma LoadedEntriesAreThirdParty(pkgs: seq<PackageInfo>, flagSystem: bv32, failAt: Option<nat>, i: nat)
    requires i < |LoadedList(pkgs, flagSystem, failAt)|
    ensures exists p :: (p in pkgs && !IsSystemApp(p, flagSystem)
                         && LoadedList(pkgs, flagSystem, failAt)[i] == ToAppInfo(p))
  {
    var reached := Reached(|pkgs|, failAt);
    var p := NonSystem(pkgs[..reached], flagSystem)[i];
    NonSystemMembers(pkgs[..reached], flagSystem);
    assert p in NonSystem(pkgs[..reached], flagSystem);
    assert p in pkgs[..reached];
  }

  class AppManagerFragment {
    const flagSystem: bv32
    var appList: seq<AppInfo>

    constructor (flagSystem: bv32)
      ensures this.flagSystem == flagSystem && appList == []
    {
      this.flagSystem := flagSystem;
      appList := [];
    }

    /**
     * loadUninstallableApps: clear the list (before the try), then append an entry
     * per package without FLAG_SYSTEM. `completed` is false when the catch block ran.
     */
    method LoadUninstallableApps(pkgs: seq<PackageInfo>, failAt: Option<nat>) returns (completed: bool)
      modifies this`appList
      ensures appList == LoadedList(pkgs, flagSystem, failAt)
      ensures completed <==> failAt.None? || failAt.value >= |pkgs|
    {
      appList := [];
      var reached := Reached(|pkgs|, failAt);
      for i := 0 to |pkgs|
        invariant i <= reached
        invariant appList == AppInfos(NonSystem(pkgs[..i], flagSystem))
      {
        if failAt == Some(i) {
          return false;
        }
        LoadStep(pkgs, i, flagSystem);
        var packageInfo := pkgs[i];
        if !IsSystemApp(packageInfo, flagSystem) {
          appList := appList + [ToAppInfo(packageInfo)];
        }
      }
      assert pkgs[..|pkgs|] == pkgs;
      return true;
    }

    /**
     * silentUninstallApp: `uninstalled` is silentUninstall's answer, None when it
     * threw. Only a true answer reloads the list, from the packages then installed.
     */
    method SilentUninstallApp(uninstalled: Option<bool>, pkgsAfter: seq<PackageInfo>, failAt: Option<nat>)
      modifies this`appList
      ensures uninstalled == Some(true) ==> appList == LoadedList(pkgsAfter, flagSystem, failAt)
      ensures uninstalled != Some(true) ==> appList == old(appList)
    {
      if uninstalled == Some(true) {
        var _ := LoadUninstallableApps(pkgsAfter, failAt);
      }
    }
  }
}

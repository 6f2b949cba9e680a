/**
 * MainActivity: bottom-navigation dispatch, the fragment transaction of
 * switchFragment, the two app lists shown in dialogs, and the package name a click
 * on the uninstallable list reads back out of its entry.
 */
module MainActivity {
  import opened JavaLang
  import opened AndroidPackages

  // ---------------------------------------------------------------------------
  // Navigation and fragments
  // ---------------------------------------------------------------------------

  datatype Fragment = Home | PowerControl | SystemInfo | Network | AppManager

  /** The generated R.id values of the five bottom-navigation items. */
  datatype NavIds = NavIds(home: Int32, power: Int32, systemInfo: Int32, network: Int32, appManager: Int32)

  /** Resource ids of distinct menu items are distinct. */
  predicate DistinctIds(ids: NavIds) {
    ids.home != ids.power && ids.home != ids.systemInfo && ids.home != ids.network
      && ids.home != ids.appManager && ids.power != ids.systemInfo && ids.power != ids.network
      && ids.power != ids.appManager && ids.systemInfo != ids.network
      && ids.systemInfo != ids.appManager && ids.network != ids.appManager
  }

  /** The fragment the navigation listener's if-chain switches to for an item id, if any. */
  function NavTarget(id: Int32, ids: NavIds): (r: Option<Fragment>)
    ensures r.None? <==> id !in {ids.home, ids.power, ids.systemInfo, ids.network, ids.appManager}
    ensures DistinctIds(ids) ==>
      (r == Some(Home) <==> id == ids.home)
      && (r == Some(PowerControl) <==> id == ids.power)
      && (r == Some(SystemInfo) <==> id == ids.systemInfo)
      && (r == Some(Network) <==> id == ids.network)
      && (r == Some(AppManager) <==> id == ids.appManager)
  {
    if id == ids.home then Some(Home)
    else if id == ids.power then Some(PowerControl)
    else if id == ids.systemInfo then Some(SystemInfo)
    else if id == ids.network then Some(Network)
    else if id == ids.appManager then Some(AppManager)
    else None
  }

  /** One step of a FragmentTransaction. */
  datatype FragmentOp = Hide(hidden: Fragment) | Add(added: Fragment) | Show(shown: Fragment)

  /** mCurrentFragment together with what the FragmentManager has added and is showing. */
  datatype Fragments = Fragments(current: Option<Fragment>, added: set<Fragment>, shown: set<Fragment>)

  const NoFragments := Fragments(None, {}, {})

  /** Exactly the current fragment is visible, and everything visible has been added. */
  predicate ShowsOnlyCurrent(s: Fragments) {
    && s.shown <= s.added
    && s.shown == (if s.current.Some? then {s.current.value} else {})
  }

  /** The transaction switchFragment(f) commits. */
  function SwitchTransaction(s: Fragments, f: Fragment): (ops: seq<FragmentOp>)
    ensures 1 <= |ops| <= 2
    ensures ops[0].Hide? <==> s.current.Some?
    ensures s.current.Some? ==> ops[0] == Hide(s.current.value)
    ensures ops[|ops| - 1] == if f in s.added then Show(f) else Add(f)
  {
    (if s.current.Some? then [Hide(s.current.value)] else [])
      + (if f !in s.added then [Add(f)] else [Show(f)])
  }

  /** What one step of a transaction does to the added and shown fragments. */
  function Step(s: Fragments, op: FragmentOp): (r: Fragments)
    ensures r.current == s.current
  {
    match op
    case Hide(g) => s.(shown := s.shown - {g})
    case Add(g) => s.(added := s.added + {g}, shown := s.shown + {g})
    case Show(g) => s.(shown := s.shown + {g})
  }

  /** Committing a transaction applies its steps in order. */
  function Commit(s: Fragments, ops: seq<FragmentOp>): (r: Fragments)
    ensures r.current == s.current
    decreases |ops|
  {
    if ops == [] then s else Commit(Step(s, ops[0]), ops[1..])
  }

  /** switchFragment(f): commit its transaction, then remember f as current. */
  function Switch(s: Fragments, f: Fragment): Fragments {
    Commit(s, SwitchTransaction(s, f)).(current := Some(f))
  }

  /** The switch transaction, committed: the hide (if any) and then the add or show. */
  lemma CommitSwitchTransaction(s: Fragments, f: Fragment)
    ensures var hidden := if s.current.Some? then Step(s, Hide(s.current.value)) else s;
      Commit(s, SwitchTransaction(s, f)) == Step(hidden, if f in s.added then Show(f) else Add(f))
  {
    var ops := SwitchTransaction(s, f);
    var last := if f in s.added then Show(f) else Add(f);
    if s.current.Some? {
      var hidden := Step(s, Hide(s.current.value));
      assert ops[1..] == [last] && [last][1..] == [];
      assert Commit(s, ops) == Commit(hidden, [last]);
      assert Commit(hidden, [last]) == Commit(Step(hidden, last), []);
    } else {
      assert ops == [last] && [last][1..] == [];
      assert Commit(s, ops) == Commit(Step(s, last), []);
    }
  }

  /** After switchFragment(f), f is current, added and the only fragment shown; nothing added is lost. */
  lemma SwitchShowsOnly(s: Fragments, f: Fragment)
    requires ShowsOnlyCurrent(s)
    ensures ShowsOnlyCurrent(Switch(s, f))
    ensures Switch(s, f).current == Some(f) && Switch(s, f).shown == {f}
    ensures Switch(s, f).added == s.added + {f}
  {
    CommitSwitchTransaction(s, f);
  }

  /** Switching to the fragment already shown keeps the same fragments shown and added. */
  lemma SwitchToCurrent(s: Fragments, f: Fragment)
    requires ShowsOnlyCurrent(s) && s.current == Some(f)
    ensures Switch(s, f) == s
  {
    SwitchShowsOnly(s, f);
  }

  /** The activity's fragment bookkeeping. */
  class MainActivity {
    const ids: NavIds
    var currentFragment: Option<Fragment>
    var addedFragments: set<Fragment>
    var shownFragments: set<Fragment>

    function State(): Fragments
      reads this
    {
      Fragments(currentFragment, addedFragments, shownFragments)
    }

    /** onCreate's initFragments: the home fragment is shown first. */
    constructor (ids: NavIds)
      ensures this.ids == ids
      ensures State() == Switch(NoFragments, Home)
    {
      this.ids := ids;
      currentFragment, addedFragments, shownFragments := None, {}, {};
      new;
      var _ := SwitchFragment(Home);
    }

    /**
     * switchFragment: hide the current fragment, add the new one or show it if
     * already added, commit, and make it current. `ops` is the committed transaction.
     */
    method SwitchFragment(f: Fragment) returns (ops: seq<FragmentOp>)
      modifies this`currentFragment, this`addedFragments, this`shownFragments
      ensures ops == SwitchTransaction(old(State()), f)
      ensures State() == Switch(old(State()), f)
    {
      ghost var s := State();
      ops := [];
      if currentFragment.Some? {
        ops := ops + [Hide(currentFragment.value)];
        shownFragments := shownFragments - {currentFragment.value};
      }
      if f !in addedFragments {
        ops := ops + [Add(f)];
        addedFragments := addedFragments + {f};
        shownFragments := shownFragments + {f};
      } else {
        ops := ops + [Show(f)];
        shownFragments := shownFragments + {f};
      }
      currentFragment := Some(f);
      CommitSwitchTransaction(s, f);
    }

    /** The bottom-navigation listener: true and a switch for one of the five ids, false and no change otherwise. */
    method OnNavigationItemSelected(id: Int32) returns (handled: bool)
      modifies this`currentFragment, this`addedFragments, this`shownFragments
      ensures handled <==> NavTarget(id, ids).Some?
      ensures handled ==> State() == Switch(old(State()), NavTarget(id, ids).value)
      ensures !handled ==> State() == old(State())
    {
      var target := NavTarget(id, ids);
      if target.Some? {
        var _ := SwitchFragment(target.value);
        return true;
      }
      return false;
    }
  }

  // ---------------------------------------------------------------------------
  // App lists
  // ---------------------------------------------------------------------------

  /** An uninstallable-list entry: `label + " (" + packageName + ")"`. */
  function EntryText(appLabel: string, packageName: string): string {
    appLabel + " (" + packageName + ")"
  }

  /** The entries of the uninstallable-apps dialog for the given packages, one each, in order. */
  function Entries(ps: seq<PackageInfo>): (r: seq<string>)
    ensures |r| == |ps|
    ensures forall i :: 0 <= i < |ps| ==> r[i] == EntryText(ps[i].appLabel, ps[i].packageName)
  {
    seq(|ps|, i requires 0 <= i < |ps| => EntryText(ps[i].appLabel, ps[i].packageName))
  }

  lemma EntriesSnoc(ps: seq<PackageInfo>, p: PackageInfo)
    ensures Entries(ps + [p]) == Entries(ps) + [EntryText(p.appLabel, p.packageName)]
  {
    var l, r := Entries(ps + [p]), Entries(ps) + [EntryText(p.appLabel, p.packageName)];
    assert |l| == |r|;
    forall i | 0 <= i < |l|
      ensures l[i] == r[i]
    {
      if i < |ps| {
        assert (ps + [p])[i] == ps[i];
      }
    }
  }

  const SystemAppTag: string := "系统应用"
  const ThirdPartyAppTag: string := "第三方应用"

  /** An all-apps entry: `label + " (" + packageName + ") - " + type`. */
  function AllAppsEntry(p: PackageInfo, flagSystem: bv32): string {
    p.appLabel + " (" + p.packageName + ") - "
      + (if IsSystemApp(p, flagSystem) then SystemAppTag else ThirdPartyAppTag)
  }

  predicate EndsWith(s: string, suffix: string) {
    |suffix| <= |s| && s[|s| - |suffix|..] == suffix
  }

  /** An all-apps entry carries the system-app tag exactly when the package has the FLAG_SYSTEM bit. */
  lemma AllAppsEntryTag(p: PackageInfo, flagSystem: bv32)
    ensures EndsWith(AllAppsEntry(p, flagSystem), SystemAppTag) <==> IsSystemApp(p, flagSystem)
    ensures EndsWith(AllAppsEntry(p, flagSystem), ThirdPartyAppTag) <==> !IsSystemApp(p, flagSystem)
  {
    var e := AllAppsEntry(p, flagSystem);
    if IsSystemApp(p, flagSystem) {
      assert e[|e| - |SystemAppTag|..] == SystemAppTag;
      assert e[|e| - |ThirdPartyAppTag|..][0] != ThirdPartyAppTag[0];
    } else {
      assert e[|e| - |ThirdPartyAppTag|..] == ThirdPartyAppTag;
      assert e[|e| - |SystemAppTag|..][0] != SystemAppTag[0];
    }
  }

  /** showUninstallableApps: one entry per package without FLAG_SYSTEM, in input order. */
  method ShowUninstallableApps(pkgs: seq<PackageInfo>, flagSystem: bv32) returns (entries: seq<string>)
    ensures entries == Entries(NonSystem(pkgs, flagSystem))
    ensures entries == [] <==> forall p :: p in pkgs ==> IsSystemApp(p, flagSystem)
  {
    entries := [];
    for i := 0 to |pkgs|
      invariant entries == Entries(NonSystem(pkgs[..i], flagSystem))
    {
      assert pkgs[..i + 1][..i] == pkgs[..i];
      var info := pkgs[i];
      if !IsSystemApp(info, flagSystem) {
        EntriesSnoc(NonSystem(pkgs[..i], flagSystem), info);
        entries := entries + [EntryText(info.appLabel, info.packageName)];
      }
    }
    assert pkgs[..|pkgs|] == pkgs;
    NonSystemEmpty(pkgs, flagSystem);
  }

  /** showAllInstalledApps: one tagged entry per installed package, in input order. */
  method ShowAllInstalledApps(pkgs: seq<PackageInfo>, flagSystem: bv32) returns (entries: seq<string>)
    ensures |entries| == |pkgs|
    ensures forall i :: 0 <= i < |pkgs| ==> entries[i] == AllAppsEntry(pkgs[i], flagSystem)
  {
    entries := [];
    for i := 0 to |pkgs|
      invariant |entries| == i
      invariant forall k :: 0 <= k < i ==> entries[k] == AllAppsEntry(pkgs[k], flagSystem)
    {
      var info := pkgs[i];
      var appType := if IsSystemApp(info, flagSystem) then SystemAppTag else ThirdPartyAppTag;
      entries := entries + [info.appLabel + " (" + info.packageName + ") - " + appType];
    }
  }

  // ---------------------------------------------------------------------------
  // Reading the package name back out of an entry
  // ---------------------------------------------------------------------------

  /**
   * `entry.substring(entry.lastIndexOf("(") + 1, entry.lastIndexOf(")"))`; None is
   * the StringIndexOutOfBoundsException for a missing ')' or a ')' before the last '('.
   */
  function ExtractPackageName(entry: string): (r: Option<string>)
    ensures ')' !in entry ==> r.None?
    ensures '(' in entry && ')' in entry ==>
      (r.Some? <==> LastIndexOf(entry, '(') < LastIndexOf(entry, ')'))
    ensures '(' !in entry && ')' in entry ==> r == Some(entry[..LastIndexOf(entry, ')')])
    ensures r.Some? ==> '(' !in r.value && |r.value| < |entry|
    ensures r.Some? ==>
      0 <= LastIndexOf(entry, '(') + 1 <= LastIndexOf(entry, ')') <= |entry| &&
      r.value == entry[LastIndexOf(entry, '(') + 1..LastIndexOf(entry, ')')]
  {
    var open, close := LastIndexOf(entry, '('), LastIndexOf(entry, ')');
    var r := Substring(entry, open + 1, close);
    assert r.Some? ==> r.value == entry[open + 1..close];
    r
  }

  /** A package name without parentheses is read back from its entry, whatever the label holds. */
  lemma ExtractFromEntry(appLabel: string, packageName: string)
    requires '(' !in packageName && ')' !in packageName
    ensures ExtractPackageName(EntryText(appLabel, packageName)) == Some(packageName)
  {
    var e := EntryText(appLabel, packageName);
    var open, close := |appLabel| + 1, |e| - 1;
    assert e[open] == '(' && e[close] == ')';
    assert forall k :: open < k < close ==> e[k] == packageName[k - open - 1];
    assert LastIndexOf(e, '(') == open;
    assert LastIndexOf(e, ')') == close;
    assert e[open + 1..close] == packageName;
  }

  /** What a click on row `which` of an app-list dialog does. */
  datatype ClickOutcome = Ignored | Uninstall(packageName: string) | SubstringThrows

  /** The dialog's click listener: only the uninstallable list extracts a name and asks to uninstall it. */
  function OnAppListClick(appList: seq<string>, which: nat, canUninstall: bool): (r: ClickOutcome)
    requires which < |appList|
    ensures !canUninstall <==> r == Ignored
    ensures canUninstall ==> (r.Uninstall? <==> ExtractPackageName(appList[which]).Some?)
    ensures r.Uninstall? ==> Some(r.packageName) == ExtractPackageName(appList[which])
  {
    if canUninstall then
      match ExtractPackageName(appList[which])
      case Some(name) => Uninstall(name)
      case None => SubstringThrows
    else Ignored
  }

  /** Clicking row i of the uninstallable list asks to uninstall the i-th third-party package. */
  lemma ClickUninstallsListedPackage(pkgs: seq<PackageInfo>, flagSystem: bv32, i: nat)
    requires i < |NonSystem(pkgs, flagSystem)|
    requires var p := NonSystem(pkgs, flagSystem)[i]; '(' !in p.packageName && ')' !in p.packageName
    ensures OnAppListClick(Entries(NonSystem(pkgs, flagSystem)), i, true)
      == Uninstall(NonSystem(pkgs, flagSystem)[i].packageName)
  {
    var p := NonSystem(pkgs, flagSystem)[i];
    ExtractFromEntry(p.appLabel, p.packageName);
  }
}

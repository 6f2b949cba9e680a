/**
 * The part of PackageManager.getInstalledPackages that the app's lists read: each
 * package's name, label, ApplicationInfo.flags, version and install times, and the
 * "third-party app" filter on the FLAG_SYSTEM bit shared by MainActivity and
 * AppManagerFragment. FLAG_SYSTEM's value is Android's and is a parameter here.
 */
module AndroidPackages {
  import opened JavaLang

  /** A Java `long`. */
  type Int64 = x: int | -0x8000_0000_0000_0000 <= x < 0x8000_0000_0000_0000

  datatype PackageInfo = PackageInfo(
    packageName: string,
    appLabel: string,           // applicationInfo.loadLabel(pm)
    flags: bv32,                // applicationInfo.flags
    versionName: string,
    versionCode: Int32,
    firstInstallTime: Int64,
    lastUpdateTime: Int64)

  /** `(info.applicationInfo.flags & ApplicationInfo.FLAG_SYSTEM) != 0`. */
  predicate IsSystemApp(p: PackageInfo, flagSystem: bv32) {
    p.flags & flagSystem != 0
  }

  /** The packages without the FLAG_SYSTEM bit, in the order the package manager listed them. */
  function NonSystem(pkgs: seq<PackageInfo>, flagSystem: bv32): (r: seq<PackageInfo>)
    ensures |r| <= |pkgs|
    decreases |pkgs|
  {
    if pkgs == [] then []
    else
      var init, last := pkgs[..|pkgs| - 1], pkgs[|pkgs| - 1];
      NonSystem(init, flagSystem) + (if IsSystemApp(last, flagSystem) then [] else [last])
  }

  /** The filter keeps exactly the listed packages that lack the FLAG_SYSTEM bit. */
  lemma {:induction false} NonSystemMembers(pkgs: seq<PackageInfo>, flagSystem: bv32)
    ensures forall p :: p in NonSystem(pkgs, flagSystem) <==> p in pkgs && !IsSystemApp(p, flagSystem)
    decreases |pkgs|
  {
    if pkgs != [] {
      var init, last := pkgs[..|pkgs| - 1], pkgs[|pkgs| - 1];
      assert pkgs == init + [last];
      NonSystemMembers(init, flagSystem);
    }
  }

  /** Filtering a concatenation filters each part and keeps them in order. */
  lemma {:induction false} NonSystemAppend(a: seq<PackageInfo>, b: seq<PackageInfo>, flagSystem: bv32)
    ensures NonSystem(a + b, flagSystem) == NonSystem(a, flagSystem) + NonSystem(b, flagSystem)
    decreases |b|
  {
    if b == [] {
      assert a + b == a;
    } else {
      var init, last := b[..|b| - 1], b[|b| - 1];
      assert (a + b)[..|a + b| - 1] == a + init;
      assert (a + b)[|a + b| - 1] == last;
      NonSystemAppend(a, init, flagSystem);
    }
  }

  /** The third-party list already holds only third-party packages: filtering it again changes nothing. */
  lemma {:induction false} NonSystemIdempotent(pkgs: seq<PackageInfo>, flagSystem: bv32)
    ensures NonSystem(NonSystem(pkgs, flagSystem), flagSystem) == NonSystem(pkgs, flagSystem)
    decreases |pkgs|
  {
    if pkgs != [] {
      var init, last := pkgs[..|pkgs| - 1], pkgs[|pkgs| - 1];
      NonSystemIdempotent(init, flagSystem);
      NonSystemAppend(NonSystem(init, flagSystem), if IsSystemApp(last, flagSystem) then [] else [last], flagSystem);
      if !IsSystemApp(last, flagSystem) {
        assert [last][..0] == [];
      }
    }
  }

  /** The third-party list is empty exactly when every package has the FLAG_SYSTEM bit. */
  lemma NonSystemEmpty(pkgs: seq<PackageInfo>, flagSystem: bv32)
    ensures NonSystem(pkgs, flagSystem) == [] <==> forall p :: p in pkgs ==> IsSystemApp(p, flagSystem)
  {
    NonSystemMembers(pkgs, flagSystem);
    if NonSystem(pkgs, flagSystem) != [] {
      assert NonSystem(pkgs, flagSystem)[0] in NonSystem(pkgs, flagSystem);
    }
  }

  /** Extending the scanned prefix by one package appends that package when it is third-party. */
  lemma NonSystemPrefixStep(pkgs: seq<PackageInfo>, i: nat, flagSystem: bv32)
    requires i < |pkgs|
    ensures NonSystem(pkgs[..i + 1], flagSystem)
      == NonSystem(pkgs[..i], flagSystem) + (if IsSystemApp(pkgs[i], flagSystem) then [] else [pkgs[i]])
  {
    assert pkgs[..i + 1][..i] == pkgs[..i];
  }
}

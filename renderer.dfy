/**
 * The data preparation of `Renderer.Render` (internal/build/renderer.go:34-69): the services
 * of the merged files grouped by package, the error-code packages set aside, services and
 * packages put in name order, and the error-code file picked out for the templates.
 */
module Rendering {
  import opened Wrappers
  import opened Strings
  import opened Model
  import opened Templates

  /** A package and the services of every file declaring it. */
  datatype Package = Package(name: string, services: seq<Service>)

  /** Packages with this suffix hold error codes and are rendered from `errFile` only. */
  const ErrCodeSuffix := ".ErrCode"

  function PackageName(p: Package): string { p.name }

  /** The packages the files declare. */
  function PackageNames(files: seq<File>): set<string> {
    set i | 0 <= i < |files| :: files[i].package
  }

  /** The services of the files in package `name`, file by file in file order. */
  function ServicesOf(files: seq<File>, name: string): seq<Service> {
    if |files| == 0 then []
    else
      var last := files[|files| - 1];
      ServicesOf(files[..|files| - 1], name) + (if last.package == name then last.services else [])
  }

  /** A package gathers exactly the services of the files declaring it. */
  lemma {:induction false} ServicesOfMembers(files: seq<File>, name: string, s: Service)
    ensures s in ServicesOf(files, name) <==> exists i :: 0 <= i < |files| && files[i].package == name && s in files[i].services
  {
    if |files| > 0 {
      var init := files[..|files| - 1];
      ServicesOfMembers(init, name, s);
      if exists i :: 0 <= i < |init| && init[i].package == name && s in init[i].services {
        var i :| 0 <= i < |init| && init[i].package == name && s in init[i].services;
        assert files[i] == init[i];
      }
      if exists i :: 0 <= i < |files| && files[i].package == name && s in files[i].services {
        var i :| 0 <= i < |files| && files[i].package == name && s in files[i].services;
        if i < |init| {
          assert init[i] == files[i];
        }
      }
    }
  }

  lemma {:induction false} ServicesOfAbsent(files: seq<File>, name: string)
    requires name !in PackageNames(files)
    ensures ServicesOf(files, name) == []
  {
    if |files| > 0 {
      var init := files[..|files| - 1];
      assert PackageNames(init) <= PackageNames(files) by {
        assert forall k | 0 <= k < |init| :: init[k] == files[k];
      }
      ServicesOfAbsent(init, name);
    }
  }

  /** A package as `Render` lists it: not an error-code package, its services in full-name order. */
  ghost predicate RenderedFrom(files: seq<File>, p: Package) {
    && p.name in PackageNames(files)
    && !EndsWith(p.name, ErrCodeSuffix)
    && SortedPermutation(ServicesOf(files, p.name), p.services, ServiceFullName)
  }

  /**
   * The packages the grouping loops add, in map order: one per package of the files that is
   * not an error-code package, and no other.
   */
  ghost predicate Selected(files: seq<File>, added: seq<Package>) {
    && (forall k | 0 <= k < |added| :: RenderedFrom(files, added[k]))
    && (forall i, j | 0 <= i < j < |added| :: added[i].name != added[j].name)
    && Names(added) == ListedNames(files)
  }

  function Names(packages: seq<Package>): set<string> {
    set k | 0 <= k < |packages| :: packages[k].name
  }

  /** The packages of the files that are not error-code packages. */
  function ListedNames(files: seq<File>): set<string> {
    set name | name in PackageNames(files) && !EndsWith(name, ErrCodeSuffix)
  }

  /**
   * Every service of a file outside the error-code packages is listed under its file's
   * package, and nothing else is listed.
   */
  lemma SelectedServices(files: seq<File>, added: seq<Package>, i: nat, s: Service)
    requires Selected(files, added) && i < |files| && !EndsWith(files[i].package, ErrCodeSuffix) && s in files[i].services
    ensures exists k :: 0 <= k < |added| && added[k].name == files[i].package && s in added[k].services
  {
    assert files[i].package in ListedNames(files);
    var k :| 0 <= k < |added| && added[k].name == files[i].package;
    ServicesOfMembers(files, files[i].package, s);
    assert s in multiset(ServicesOf(files, files[i].package));
  }

  lemma SelectedOnlyServices(files: seq<File>, added: seq<Package>, k: nat, s: Service)
    requires Selected(files, added) && k < |added| && s in added[k].services
    ensures exists i :: 0 <= i < |files| && files[i].package == added[k].name && s in files[i].services
  {
    assert s in multiset(added[k].services);
    ServicesOfMembers(files, added[k].name, s);
  }

  /** The file `Render` exposes as `ErrFile`: the last error-code file, else what was there. */
  function LastErrFile(files: seq<File>, prior: Option<File>): (r: Option<File>)
    ensures r.Some? && r != prior ==> r.value in files && EndsWith(r.value.package, ErrCodeSuffix)
  {
    if |files| == 0 then prior
    else if EndsWith(files[|files| - 1].package, ErrCodeSuffix) then Some(files[|files| - 1])
    else LastErrFile(files[..|files| - 1], prior)
  }

  /** No error-code file: the previous value is kept. */
  lemma {:induction false} LastErrFileNone(files: seq<File>, prior: Option<File>)
    requires forall i | 0 <= i < |files| :: !EndsWith(files[i].package, ErrCodeSuffix)
    ensures LastErrFile(files, prior) == prior
  {
    if |files| > 0 {
      var init := files[..|files| - 1];
      assert forall i | 0 <= i < |init| :: init[i] == files[i];
      LastErrFileNone(init, prior);
    }
  }

  /** An error-code file at `i`: the result is an error-code file at `i` or later, with none after it. */
  lemma {:induction false} LastErrFileAt(files: seq<File>, prior: Option<File>, i: nat) returns (j: nat)
    requires i < |files| && EndsWith(files[i].package, ErrCodeSuffix)
    ensures i <= j < |files| && LastErrFile(files, prior) == Some(files[j])
    ensures forall j' | j < j' < |files| :: !EndsWith(files[j'].package, ErrCodeSuffix)
  {
    var n := |files| - 1;
    if EndsWith(files[n].package, ErrCodeSuffix) {
      j := n;
    } else {
      var init := files[..n];
      assert init[i] == files[i];
      j := LastErrFileAt(init, prior, i);
      assert files[j] == init[j];
      assert forall j' | j < j' < |init| :: init[j'] == files[j'];
    }
  }

  /**
   * The error-code file is the last file of an error-code package; when there is none, the
   * previous value is kept.
   */
  lemma LastErrFileSpec(files: seq<File>, prior: Option<File>)
    ensures (forall i | 0 <= i < |files| :: !EndsWith(files[i].package, ErrCodeSuffix)) ==> LastErrFile(files, prior) == prior
    ensures forall i | 0 <= i < |files| && EndsWith(files[i].package, ErrCodeSuffix) ::
      exists j :: (i <= j < |files| && LastErrFile(files, prior) == Some(files[j]) &&
                   forall j' | j < j' < |files| :: !EndsWith(files[j'].package, ErrCodeSuffix))
  {
    if forall i | 0 <= i < |files| :: !EndsWith(files[i].package, ErrCodeSuffix) {
      LastErrFileNone(files, prior);
    }
    forall i | 0 <= i < |files| && EndsWith(files[i].package, ErrCodeSuffix)
      ensures exists j :: (i <= j < |files| && LastErrFile(files, prior) == Some(files[j]) &&
                           forall j' | j < j' < |files| :: !EndsWith(files[j'].package, ErrCodeSuffix))
    {
      var j := LastErrFileAt(files, prior, i);
    }
  }

  /** The grouping loop: one entry per package, holding the services of its files in order. */
  method GroupByPackage(files: seq<File>) returns (packages: map<string, Package>)
    ensures packages.Keys == PackageNames(files)
    ensures forall name | name in packages :: packages[name] == Package(name, ServicesOf(files, name))
  {
    packages := map[];
    for i := 0 to |files|
      invariant packages.Keys == PackageNames(files[..i])
      invariant forall name | name in packages :: packages[name] == Package(name, ServicesOf(files[..i], name))
    {
      var file := files[i];
      assert files[..i + 1][..i] == files[..i];
      assert PackageNames(files[..i + 1]) == PackageNames(files[..i]) + {file.package} by {
        assert forall k | 0 <= k < i :: files[..i + 1][k] == files[..i][k];
      }
      var pkg := if file.package in packages then packages[file.package] else Package(file.package, []);
      if file.package !in packages {
        ServicesOfAbsent(files[..i], file.package);
      }
      packages := packages[file.package := pkg.(services := pkg.services + file.services)];
      forall name | name in packages
        ensures packages[name] == Package(name, ServicesOf(files[..i + 1], name))
      {
        assert ServicesOf(files[..i + 1], name) ==
          ServicesOf(files[..i], name) + (if file.package == name then file.services else []);
        if name != file.package {
          assert ServicesOf(files[..i], name) + [] == ServicesOf(files[..i], name);
        }
      }
    }
    assert files[..|files|] == files;
  }

  /**
   * The second loop: in the map's (unspecified) order, every package except the error-code
   * ones gets its services sorted by full name and is listed.
   */
  method SelectPackages(ghost files: seq<File>, packages: map<string, Package>) returns (added: seq<Package>)
    requires packages.Keys == PackageNames(files)
    requires forall name | name in packages :: packages[name] == Package(name, ServicesOf(files, name))
    ensures Selected(files, added)
  {
    added := [];
    var pending := packages.Keys;
    while pending != {}
      invariant pending <= packages.Keys
      invariant SelectedSoFar(files, packages.Keys, pending, added)
      decreases pending
    {
      var name :| name in pending;
      if EndsWith(name, ErrCodeSuffix) {
        SkipErrCode(files, packages.Keys, pending, added, name);
        pending := pending - {name};
        continue;
      }
      var pkg := packages[name];
      var p := pkg.(services := SortByKey(pkg.services, ServiceFullName));
      ListPackage(files, packages.Keys, pending, added, p);
      pending := pending - {name};
      added := added + [p];
    }
    assert Names(added) == ListedNames(files);
  }

  /** The packages listed so far, while the names in `pending` are still to be visited. */
  ghost predicate SelectedSoFar(files: seq<File>, keys: set<string>, pending: set<string>, added: seq<Package>) {
    && (forall k | 0 <= k < |added| :: RenderedFrom(files, added[k]) && added[k].name !in pending)
    && (forall i, j | 0 <= i < j < |added| :: added[i].name != added[j].name)
    && (forall n :: n in Names(added) <==> n in keys && n !in pending && !EndsWith(n, ErrCodeSuffix))
  }

  lemma SkipErrCode(files: seq<File>, keys: set<string>, pending: set<string>, added: seq<Package>, name: string)
    requires SelectedSoFar(files, keys, pending, added) && name in pending && EndsWith(name, ErrCodeSuffix)
    ensures SelectedSoFar(files, keys, pending - {name}, added)
  {
  }

  lemma ListPackage(files: seq<File>, keys: set<string>, pending: set<string>, added: seq<Package>, p: Package)
    requires SelectedSoFar(files, keys, pending, added) && p.name in pending && p.name in keys
    requires RenderedFrom(files, p)
    ensures SelectedSoFar(files, keys, pending - {p.name}, added + [p])
  {
    NamesSnoc(added, p);
    var all := added + [p];
    forall k | 0 <= k < |all|
      ensures RenderedFrom(files, all[k]) && all[k].name !in pending - {p.name}
    {
      if k < |added| {
        assert all[k] == added[k];
      }
    }
    forall i, j | 0 <= i < j < |all|
      ensures all[i].name != all[j].name
    {
      assert all[i] == added[i];
      if j < |added| {
        assert all[j] == added[j];
      }
    }
  }

  lemma NamesSnoc(packages: seq<Package>, p: Package)
    ensures Names(packages + [p]) == Names(packages) + {p.name}
  {
    var all := packages + [p];
    assert all[|packages|] == p;
    forall n | n in Names(packages) ensures n in Names(all) {
      var k :| 0 <= k < |packages| && packages[k].name == n;
      assert all[k] == packages[k];
    }
    forall n | n in Names(all) ensures n in Names(packages) + {p.name} {
      var k :| 0 <= k < |all| && all[k].name == n;
      if k < |packages| {
        assert all[k] == packages[k];
      }
    }
  }

  class Renderer {
    const tmpl: Template
    var errFile: Option<File>
    var packages: seq<Package>

    constructor(tmpl: Template)
      ensures this.tmpl == tmpl && errFile.None? && packages == []
    {
      this.tmpl := tmpl;
      errFile := None;
      packages := [];
    }

    /**
     * The preparation part of `Render`: the selected packages are added to those already
     * listed, all of them are put in name order, and `errFile` becomes the last error-code
     * file.
     */
    method Prepare()
      modifies this
      ensures exists added :: Selected(tmpl.files, added) && SortedPermutation(old(packages) + added, packages, PackageName)
      ensures errFile == LastErrFile(tmpl.files, old(errFile))
    {
      ListPackages();
      PickErrFile();
    }

    /** Grouping by package, dropping the error-code packages, and sorting by name, after those already listed. */
    method ListPackages()
      modifies this
      ensures errFile == old(errFile)
      ensures exists added :: Selected(tmpl.files, added) && SortedPermutation(old(packages) + added, packages, PackageName)
    {
      var grouped := GroupByPackage(tmpl.files);
      var added := SelectPackages(tmpl.files, grouped);
      packages := SortByKey(packages + added, PackageName);
    }

    /** Error-file selection: the last error-code file, if any, becomes `errFile`. */
    method PickErrFile()
      modifies this
      ensures packages == old(packages)
      ensures errFile == LastErrFile(tmpl.files, old(errFile))
    {
      var files := tmpl.files;
      for i := 0 to |files|
        invariant packages == old(packages)
        invariant errFile == LastErrFile(files[..i], old(errFile))
      {
        assert files[..i + 1][..i] == files[..i];
        if EndsWith(files[i].package, ErrCodeSuffix) {
          errFile := Some(files[i]);
        }
      }
      assert files[..|files|] == files;
    }
  }

  /** The listed packages are in name order and none of them is an error-code package. */
  lemma PreparedPackages(files: seq<File>, added: seq<Package>, prior: seq<Package>, after: seq<Package>)
    requires Selected(files, added) && SortedPermutation(prior + added, after, PackageName)
    requires forall k | 0 <= k < |prior| :: !EndsWith(prior[k].name, ErrCodeSuffix)
    ensures SortedBy(after, PackageName)
    ensures forall k | 0 <= k < |after| :: !EndsWith(after[k].name, ErrCodeSuffix)
    ensures |after| == |prior| + |added|
  {
    assert |after| == |multiset(after)| == |multiset(prior + added)| == |prior + added|;
    forall k | 0 <= k < |after|
      ensures !EndsWith(after[k].name, ErrCodeSuffix)
    {
      assert after[k] in multiset(prior + added);
      assert after[k] in prior + added;
    }
  }
}

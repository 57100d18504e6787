/**
 * The sort pass at the end of `finishParse` (internal/build/template.go:358-388): inside
 * every file the enums, messages and services are ordered by name and every service's
 * methods by name, then the files are ordered by package. Go's `sort.Slice` is not stable,
 * so only "sorted, and a permutation" is promised; ties may land in any order.
 */
module SortPass {
  import opened Strings
  import opened Model

  /** A service whose methods were put in name order and nothing else changed. */
  ghost predicate ServiceSortedFrom(before: Service, after: Service) {
    after == before.(methods := after.methods) && SortedPermutation(before.methods, after.methods, MethodName)
  }

  /**
   * A file after the per-file part of `sort`: enums and messages are sorted permutations,
   * the services are a sorted permutation whose methods were then sorted, and nothing else
   * changed.
   */
  ghost predicate FileSortedFrom(before: File, after: File) {
    && after == before.(enums := after.enums, messages := after.messages, services := after.services)
    && SortedPermutation(before.enums, after.enums, EnumName)
    && SortedPermutation(before.messages, after.messages, MessageName)
    && exists mid ::
         SortedPermutation(before.services, mid, ServiceName) && |mid| == |after.services| &&
         forall k | 0 <= k < |mid| :: ServiceSortedFrom(mid[k], after.services[k])
  }

  /** The files after `sort`: every file sorted inside, then the files ordered by package. */
  ghost predicate SortPassOf(before: seq<File>, after: seq<File>) {
    exists mid :: SortedInside(before, mid) && SortedPermutation(mid, after, FilePackage)
  }

  /** The files sorted inside, before they are put in package order. */
  ghost predicate SortedInside(before: seq<File>, mid: seq<File>) {
    |mid| == |before| && forall i | 0 <= i < |before| :: FileSortedFrom(before[i], mid[i])
  }

  lemma SortPassIntro(before: seq<File>, mid: seq<File>, after: seq<File>)
    requires |mid| == |before| && forall i | 0 <= i < |before| :: FileSortedFrom(before[i], mid[i])
    requires SortedPermutation(mid, after, FilePackage)
    ensures SortPassOf(before, after)
  {
  }

  /** One file sorted inside, the way `sort` does it: services first, then their methods. */
  function SortFile(file: File): (r: File)
    ensures FileSortedFrom(file, r)
  {
    var services := SortByKey(file.services, ServiceName);
    var sorted := seq(|services|, k requires 0 <= k < |services| =>
      services[k].(methods := SortByKey(services[k].methods, MethodName)));
    assert forall k | 0 <= k < |services| :: ServiceSortedFrom(services[k], sorted[k]);
    file.(enums := SortByKey(file.enums, EnumName),
          messages := SortByKey(file.messages, MessageName),
          services := sorted)
  }

  lemma SortFilesSorted(before: seq<File>, mid: seq<File>)
    requires |mid| == |before| && forall k | 0 <= k < |before| :: mid[k] == SortFile(before[k])
    ensures forall k | 0 <= k < |before| :: FileSortedFrom(before[k], mid[k])
  {
  }

  /** Every list inside a file is in name order. */
  predicate FileOrdered(file: File) {
    && SortedBy(file.enums, EnumName)
    && SortedBy(file.messages, MessageName)
    && SortedBy(file.services, ServiceName)
    && forall k | 0 <= k < |file.services| :: SortedBy(file.services[k].methods, MethodName)
  }

  lemma FileSortedFromOrdered(before: File, after: File)
    requires FileSortedFrom(before, after)
    ensures FileOrdered(after)
  {
    var mid: seq<Service> :| SortedPermutation(before.services, mid, ServiceName) && |mid| == |after.services| &&
      forall k | 0 <= k < |mid| :: ServiceSortedFrom(mid[k], after.services[k]);
    assert forall k | 0 <= k < |mid| :: after.services[k].name == mid[k].name;
    assert SortedBy(mid, ServiceName);
  }

  /**
   * After the sort pass the files are in package order and every list inside every file is
   * in name order.
   */
  lemma SortPassOrdered(before: seq<File>, after: seq<File>)
    requires SortPassOf(before, after)
    ensures SortedBy(after, FilePackage)
    ensures forall i | 0 <= i < |after| :: FileOrdered(after[i])
  {
    var mid: seq<File> :| |mid| == |before| && (forall i | 0 <= i < |before| :: FileSortedFrom(before[i], mid[i])) &&
      SortedPermutation(mid, after, FilePackage);
    forall i | 0 <= i < |after|
      ensures FileOrdered(after[i])
    {
      assert after[i] in multiset(mid);
      var j :| 0 <= j < |mid| && mid[j] == after[i];
      FileSortedFromOrdered(before[j], mid[j]);
    }
  }

  /** An element of a permutation is found at some index of the other sequence. */
  lemma PermutedIndex<T>(a: seq<T>, b: seq<T>, i: nat) returns (j: nat)
    requires multiset(a) == multiset(b) && i < |b|
    ensures j < |a| && a[j] == b[i]
  {
    assert b[i] in multiset(a);
    j :| 0 <= j < |a| && a[j] == b[i];
  }

  /** `f` is one of the files of `before`, sorted inside. */
  ghost predicate SortedFromSome(before: seq<File>, f: File) {
    exists j :: 0 <= j < |before| && FileSortedFrom(before[j], f)
  }

  /** `file`, sorted inside, is one of the files of `after`. */
  ghost predicate SortedIntoSome(file: File, after: seq<File>) {
    exists i :: 0 <= i < |after| && FileSortedFrom(file, after[i])
  }

  lemma ImageOf(before: seq<File>, mid: seq<File>, after: seq<File>, i: nat)
    requires SortedInside(before, mid) && multiset(mid) == multiset(after) && i < |after|
    ensures SortedFromSome(before, after[i])
  {
    var j := PermutedIndex(mid, after, i);
    assert FileSortedFrom(before[j], after[i]);
  }

  lemma PreimageOf(before: seq<File>, mid: seq<File>, after: seq<File>, j: nat)
    requires SortedInside(before, mid) && multiset(mid) == multiset(after) && j < |before|
    ensures SortedIntoSome(before[j], after)
  {
    var i := PermutedIndex(after, mid, j);
    assert FileSortedFrom(before[j], after[i]);
  }

  lemma PermutedFiles(before: seq<File>, mid: seq<File>, after: seq<File>)
    requires SortedInside(before, mid) && multiset(mid) == multiset(after)
    ensures |after| == |before|
    ensures forall i | 0 <= i < |after| :: SortedFromSome(before, after[i])
    ensures forall j | 0 <= j < |before| :: SortedIntoSome(before[j], after)
  {
    assert |after| == |multiset(after)| == |multiset(mid)| == |mid|;
    forall i | 0 <= i < |after|
      ensures SortedFromSome(before, after[i])
    {
      ImageOf(before, mid, after, i);
    }
    forall j | 0 <= j < |before|
      ensures SortedIntoSome(before[j], after)
    {
      PreimageOf(before, mid, after, j);
    }
  }

  /**
   * Nothing is lost or invented: the sort pass maps the files one to one, each file of the
   * result being some input file sorted inside, and every input file having such an image.
   */
  lemma SortPassKeepsFiles(before: seq<File>, after: seq<File>)
    requires SortPassOf(before, after)
    ensures |after| == |before|
    ensures forall i | 0 <= i < |after| :: SortedFromSome(before, after[i])
    ensures forall j | 0 <= j < |before| :: SortedIntoSome(before[j], after)
  {
    var mid: seq<File> :| SortedInside(before, mid) && SortedPermutation(mid, after, FilePackage);
    PermutedFiles(before, mid, after);
  }
}

/**
 * The option queries the documentation templates call on a message, an enum and a service
 * (internal/build/template.go: FieldOptions/FieldsWithOption, ValueOptions/ValuesWithOption,
 * MethodOptions/MethodsWithOption). The three pairs differ only in the children they look
 * at, so each pair is one generic method applied to the children and their option maps.
 */
module OptionQueries {
  import opened Strings
  import opened Model

  /** The option names set on any of `items`. */
  function OptionNameSet<T>(items: seq<T>, optionsOf: T -> Options): set<string> {
    if |items| == 0 then {}
    else OptionNameSet(items[..|items| - 1], optionsOf) + optionsOf(items[|items| - 1]).Keys
  }

  lemma {:induction false} OptionNameSetMembers<T>(items: seq<T>, optionsOf: T -> Options, name: string)
    ensures name in OptionNameSet(items, optionsOf) <==> exists i :: 0 <= i < |items| && name in optionsOf(items[i])
  {
    if |items| > 0 {
      var init := items[..|items| - 1];
      OptionNameSetMembers(init, optionsOf, name);
      if name in OptionNameSet(init, optionsOf) {
        var i :| 0 <= i < |init| && name in optionsOf(init[i]);
        assert items[i] == init[i];
      }
      if exists i :: 0 <= i < |items| && name in optionsOf(items[i]) {
        var i :| 0 <= i < |items| && name in optionsOf(items[i]);
        if i < |init| {
          assert init[i] == items[i];
        }
      }
    }
  }

  lemma OptionNameSetAll<T>(items: seq<T>, optionsOf: T -> Options)
    ensures forall n :: n in OptionNameSet(items, optionsOf) <==> exists i :: 0 <= i < |items| && n in optionsOf(items[i])
  {
    forall n ensures n in OptionNameSet(items, optionsOf) <==> exists i :: 0 <= i < |items| && n in optionsOf(items[i]) {
      OptionNameSetMembers(items, optionsOf, n);
    }
  }

  /** The items that carry option `name`, in their original order. */
  function WithOption<T>(items: seq<T>, optionsOf: T -> Options, name: string): seq<T> {
    if |items| == 0 then []
    else
      var init := WithOption(items[..|items| - 1], optionsOf, name);
      if name in optionsOf(items[|items| - 1]) then init + [items[|items| - 1]] else init
  }

  /** WithOption keeps exactly the items carrying the option, and is empty when none does. */
  lemma {:induction false} WithOptionMembers<T>(items: seq<T>, optionsOf: T -> Options, name: string)
    ensures forall x :: x in WithOption(items, optionsOf, name) <==> x in items && name in optionsOf(x)
    ensures WithOption(items, optionsOf, name) == [] <==> forall x | x in items :: name !in optionsOf(x)
    ensures |WithOption(items, optionsOf, name)| <= |items|
  {
    if |items| > 0 {
      var init := items[..|items| - 1];
      WithOptionMembers(init, optionsOf, name);
      assert items == init + [items[|items| - 1]];
    }
  }

  predicate StrictlySorted(s: seq<string>) {
    forall i, j :: 0 <= i < j < |s| ==> Less(s[i], s[j])
  }

  predicate Distinct<T(==)>(s: seq<T>) {
    forall i, j :: 0 <= i < j < |s| ==> s[i] != s[j]
  }

  function Self(s: string): string { s }

  lemma SameMembers(before: seq<string>, after: seq<string>)
    requires multiset(after) == multiset(before)
    ensures forall n :: n in after <==> n in before
  {
    forall n ensures n in after <==> n in before {
      assert n in after <==> n in multiset(after);
      assert n in before <==> n in multiset(before);
    }
  }

  lemma {:induction false} DistinctCounts<T>(s: seq<T>)
    requires Distinct(s)
    ensures forall x :: multiset(s)[x] <= 1
  {
    if |s| > 0 {
      var init := s[..|s| - 1];
      DistinctCounts(init);
      assert s == init + [s[|s| - 1]];
      assert s[|s| - 1] !in init;
    }
  }

  lemma {:induction false} RepeatCount<T>(s: seq<T>, i: nat, j: nat)
    requires i < j < |s| && s[i] == s[j]
    ensures multiset(s)[s[i]] >= 2
  {
    assert s == s[..j] + [s[j]] + s[j + 1..];
    assert s[i] in s[..j];
  }

  /** A sorted permutation of a duplicate-free list is strictly sorted. */
  lemma SortedDistinctIsStrict(before: seq<string>, after: seq<string>)
    requires Distinct(before) && SortedPermutation(before, after, Self)
    ensures StrictlySorted(after)
  {
    DistinctCounts(before);
    forall i, j | 0 <= i < j < |after|
      ensures Less(after[i], after[j])
    {
      if after[i] == after[j] {
        RepeatCount(after, i, j);
      }
      assert LessEq(Self(after[i]), Self(after[j]));
      LessTrichotomous(after[i], after[j]);
    }
  }

  /** The set of option names over all `items` (Go's `optionsMap`). */
  method CollectOptionNames<T>(items: seq<T>, optionsOf: T -> Options) returns (optionSet: set<string>)
    ensures optionSet == OptionNameSet(items, optionsOf)
  {
    optionSet := {};
    for i := 0 to |items|
      invariant optionSet == OptionNameSet(items[..i], optionsOf)
    {
      var pending := optionsOf(items[i]).Keys;
      while pending != {}
        invariant pending <= optionsOf(items[i]).Keys
        invariant optionSet == OptionNameSet(items[..i], optionsOf) + (optionsOf(items[i]).Keys - pending)
      {
        var option :| option in pending;
        optionSet := optionSet + {option};
        pending := pending - {option};
      }
      assert items[..i + 1][..i] == items[..i];
    }
    assert items[..|items|] == items;
  }

  /** The members of a set as a duplicate-free list, in the map's iteration order. */
  method SetToList(optionSet: set<string>) returns (options: seq<string>)
    ensures forall n :: n in options <==> n in optionSet
    ensures Distinct(options)
  {
    options := [];
    var pending := optionSet;
    while pending != {}
      invariant pending <= optionSet
      invariant forall n :: n in options <==> n in optionSet - pending
      invariant Distinct(options)
    {
      var option :| option in pending;
      assert option !in options;
      assert forall i | 0 <= i < |options| :: options[i] in options;
      options := options + [option];
      pending := pending - {option};
    }
  }

  /**
   * The sorted, duplicate-free option names of all `items`, or the empty list (Go's nil) when
   * no item has an option.
   */
  method OptionNames<T>(items: seq<T>, optionsOf: T -> Options) returns (names: seq<string>)
    ensures forall n :: n in names <==> exists i :: 0 <= i < |items| && n in optionsOf(items[i])
    ensures StrictlySorted(names)
  {
    var optionSet := CollectOptionNames(items, optionsOf);
    OptionNameSetAll(items, optionsOf);
    if optionSet == {} {
      names := [];
      assert forall n :: n in names <==> n in optionSet;
      return;
    }
    var options := SetToList(optionSet);
    names := SortByKey(options, Self);
    SortedDistinctIsStrict(options, names);
    SameMembers(options, names);
  }

  /** The items that carry option `name`, in order, or the empty list (Go's nil) when none does. */
  method ItemsWithOption<T(==)>(items: seq<T>, optionsOf: T -> Options, name: string) returns (r: seq<T>)
    ensures r == WithOption(items, optionsOf, name)
    ensures forall x :: x in r <==> x in items && name in optionsOf(x)
  {
    r := [];
    for i := 0 to |items|
      invariant r == WithOption(items[..i], optionsOf, name)
    {
      if name in optionsOf(items[i]) {
        r := r + [items[i]];
      }
      assert items[..i + 1][..i] == items[..i];
    }
    assert items[..|items|] == items;
    WithOptionMembers(items, optionsOf, name);
  }

  /** Message.FieldOptions. */
  method FieldOptions(m: Message) returns (names: seq<string>)
    ensures forall n :: n in names <==> exists i :: 0 <= i < |m.fields| && n in m.fields[i].options
    ensures StrictlySorted(names)
  {
    names := OptionNames(m.fields, FieldOptionsOf);
  }

  /** Message.FieldsWithOption. */
  method FieldsWithOption(m: Message, optionName: string) returns (fields: seq<Field>)
    ensures fields == WithOption(m.fields, FieldOptionsOf, optionName)
    ensures forall f :: f in fields <==> f in m.fields && optionName in f.options
  {
    fields := ItemsWithOption(m.fields, FieldOptionsOf, optionName);
  }

  /** Enum.ValueOptions. */
  method ValueOptions(e: Enum) returns (names: seq<string>)
    ensures forall n :: n in names <==> exists i :: 0 <= i < |e.values| && n in e.values[i].options
    ensures StrictlySorted(names)
  {
    names := OptionNames(e.values, ValueOptionsOf);
  }

  /** Enum.ValuesWithOption. */
  method ValuesWithOption(e: Enum, optionName: string) returns (values: seq<EnumValue>)
    ensures values == WithOption(e.values, ValueOptionsOf, optionName)
    ensures forall v :: v in values <==> v in e.values && optionName in v.options
  {
    values := ItemsWithOption(e.values, ValueOptionsOf, optionName);
  }

  /** Service.MethodOptions. */
  method MethodOptions(s: Service) returns (names: seq<string>)
    ensures forall n :: n in names <==> exists i :: 0 <= i < |s.methods| && n in s.methods[i].options
    ensures StrictlySorted(names)
  {
    names := OptionNames(s.methods, MethodOptionsOf);
  }

  /** Service.MethodsWithOption. */
  method MethodsWithOption(s: Service, optionName: string) returns (methods: seq<Method>)
    ensures methods == WithOption(s.methods, MethodOptionsOf, optionName)
    ensures forall m :: m in methods <==> m in s.methods && optionName in m.options
  {
    methods := ItemsWithOption(s.methods, MethodOptionsOf, optionName);
  }
}

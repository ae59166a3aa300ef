/** The list filters of File.ts: `_match` tests a name against a list of
    regular expressions, `_filter` keeps the regular files and then the
    directories of a list, each kind through its own optional filter, and
    `Filter` / `NotMatchFilter` call it without and with inversion. */
module FileFilter {
  import opened Wrappers

  /** What `lstat` reports for an entry. A missing path, a symbolic link or
      any other special file is neither a regular file nor a directory. */
  datatype Kind = RegularFile | Directory | OtherKind

  /** A file entry as the filters see it: its path, its base name and its kind. */
  datatype File = File(path: string, name: string, kind: Kind)

  /** A regular expression, seen only through its `test` method. */
  type RegExp = string -> bool

  /** Some expression of the list accepts the string. */
  predicate AnyAccepts(s: string, regList: seq<RegExp>)
  {
    exists i :: 0 <= i < |regList| && regList[i](s)
  }

  /** `_match`: scans the list until one expression accepts, then inverts the
      outcome when asked to. */
  method Match(str: string, isInverter: bool, regList: seq<RegExp>) returns (isMatch: bool)
    ensures !isInverter ==> (isMatch <==> AnyAccepts(str, regList))
    ensures isInverter ==> (isMatch <==> forall i :: 0 <= i < |regList| ==> !regList[i](str))
  {
    isMatch := false;
    var k := 0;
    while k < |regList|
      invariant 0 <= k <= |regList|
      invariant !isMatch
      invariant forall j :: 0 <= j < k ==> !regList[j](str)
    {
      if regList[k](str) {
        isMatch := true;
        break;
      }
      k := k + 1;
    }
    if isInverter {
      isMatch := !isMatch;
    }
  }

  /** The decision `_match` takes, as a value. */
  predicate Matches(str: string, isInverter: bool, regList: seq<RegExp>)
  {
    isInverter != AnyAccepts(str, regList)
  }

  /** An entry passes one pass of `_filter`: it has the pass's kind and, when
      the pass has a filter, its name matches it. An absent filter (JavaScript
      `undefined`) lets every entry of the kind through; an empty list is a
      present filter. */
  predicate Passes(f: File, kind: Kind, isInverter: bool, filter: Option<seq<RegExp>>)
  {
    f.kind == kind && (filter.None? || Matches(f.name, isInverter, filter.value))
  }

  /** One `forEach` pass of `_filter`: the passing entries, in list order and
      with their repetitions. */
  function Pass(fList: seq<File>, kind: Kind, isInverter: bool, filter: Option<seq<RegExp>>): (r: seq<File>)
    ensures |r| <= |fList|
    ensures forall i :: 0 <= i < |r| ==> r[i] in fList && Passes(r[i], kind, isInverter, filter)
  {
    if |fList| == 0 then []
    else
      var rest := Pass(fList[1..], kind, isInverter, filter);
      if Passes(fList[0], kind, isInverter, filter) then [fList[0]] + rest else rest
  }

  /** A pass keeps every copy of a passing entry and no copy of any other. */
  lemma {:induction false} PassCount(fList: seq<File>, kind: Kind, isInverter: bool,
                                     filter: Option<seq<RegExp>>, f: File)
    ensures multiset(Pass(fList, kind, isInverter, filter))[f]
         == if Passes(f, kind, isInverter, filter) then multiset(fList)[f] else 0
  {
    if |fList| > 0 {
      var head, rest := fList[0], fList[1..];
      PassCount(rest, kind, isInverter, filter, f);
      assert fList == [head] + rest;
      assert multiset(fList) == multiset([head]) + multiset(rest);
      var p := Pass(rest, kind, isInverter, filter);
      if Passes(head, kind, isInverter, filter) {
        assert Pass(fList, kind, isInverter, filter) == [head] + p;
        assert multiset([head] + p) == multiset([head]) + multiset(p);
      }
    }
  }

  /** An entry is kept by a pass exactly when it is in the list and passes. */
  lemma PassMembers(fList: seq<File>, kind: Kind, isInverter: bool, filter: Option<seq<RegExp>>, f: File)
    ensures f in Pass(fList, kind, isInverter, filter) <==> f in fList && Passes(f, kind, isInverter, filter)
  {
    PassCount(fList, kind, isInverter, filter, f);
    assert f in fList <==> multiset(fList)[f] > 0;
    assert f in Pass(fList, kind, isInverter, filter) <==> multiset(Pass(fList, kind, isInverter, filter))[f] > 0;
  }

  /** The result of `_filter`: the regular files that pass the file filter,
      followed by the directories that pass the directory filter. */
  function FilterList(fList: seq<File>, isInverter: bool, fileFilter: Option<seq<RegExp>>,
                      dirFilter: Option<seq<RegExp>>): (r: seq<File>)
    ensures forall i :: 0 <= i < |r| ==> r[i] in fList && r[i].kind != OtherKind
    ensures forall i, j :: 0 <= i < j < |r| && r[j].kind == RegularFile ==> r[i].kind == RegularFile
  {
    Pass(fList, RegularFile, isInverter, fileFilter) + Pass(fList, Directory, isInverter, dirFilter)
  }

  /** `_filter` keeps every copy of an entry that passes its kind's filter
      and no copy of any other entry. */
  lemma FilterListCount(fList: seq<File>, isInverter: bool, fileFilter: Option<seq<RegExp>>,
                        dirFilter: Option<seq<RegExp>>, f: File)
    ensures multiset(FilterList(fList, isInverter, fileFilter, dirFilter))[f]
         == if Passes(f, RegularFile, isInverter, fileFilter) || Passes(f, Directory, isInverter, dirFilter)
            then multiset(fList)[f] else 0
  {
    PassCount(fList, RegularFile, isInverter, fileFilter, f);
    PassCount(fList, Directory, isInverter, dirFilter, f);
  }

  /** One pass of `_filter` as the code runs it: `forEach` over the list,
      pushing every entry of the kind that `_match` accepts. */
  method RunPass(fList: seq<File>, kind: Kind, isInverter: bool, filter: Option<seq<RegExp>>,
                 res0: seq<File>) returns (res: seq<File>)
    ensures res == res0 + Pass(fList, kind, isInverter, filter)
  {
    res := res0;
    var k := 0;
    while k < |fList|
      invariant 0 <= k <= |fList|
      invariant res == res0 + Pass(fList[..k], kind, isInverter, filter)
    {
      var f := fList[k];
      var keep := f.kind == kind;
      if keep && filter.Some? {
        keep := Match(f.name, isInverter, filter.value);
      }
      assert keep == Passes(f, kind, isInverter, filter);
      PassSnoc(fList, k, kind, isInverter, filter);
      if keep {
        res := res + [f];
      }
      k := k + 1;
    }
    assert fList[..k] == fList;
  }

  /** One more entry of the list adds itself to the pass when it passes. */
  lemma PassSnoc(fList: seq<File>, k: nat, kind: Kind, isInverter: bool, filter: Option<seq<RegExp>>)
    requires k < |fList|
    ensures Pass(fList[..k + 1], kind, isInverter, filter)
         == Pass(fList[..k], kind, isInverter, filter)
          + (if Passes(fList[k], kind, isInverter, filter) then [fList[k]] else [])
  {
    assert fList[..k + 1] == fList[..k] + [fList[k]];
    PassAppend(fList[..k], [fList[k]], kind, isInverter, filter);
  }

  /** `_filter`: the file pass, then the directory pass, into one result. */
  method FilterEntries(fList: seq<File>, isInverter: bool, fileFilter: Option<seq<RegExp>>,
                       dirFilter: Option<seq<RegExp>>) returns (res: seq<File>)
    ensures res == FilterList(fList, isInverter, fileFilter, dirFilter)
  {
    res := RunPass(fList, RegularFile, isInverter, fileFilter, []);
    res := RunPass(fList, Directory, isInverter, dirFilter, res);
  }

  /** `Filter`: the entries whose names some expression accepts. */
  method Filter(fList: seq<File>, fileFilter: Option<seq<RegExp>>, dirFilter: Option<seq<RegExp>>)
    returns (res: seq<File>)
    ensures res == FilterList(fList, false, fileFilter, dirFilter)
  {
    res := FilterEntries(fList, false, fileFilter, dirFilter);
  }

  /** `NotMatchFilter`: the entries whose names no expression accepts. */
  method NotMatchFilter(fList: seq<File>, fileFilter: Option<seq<RegExp>>, dirFilter: Option<seq<RegExp>>)
    returns (res: seq<File>)
    ensures res == FilterList(fList, true, fileFilter, dirFilter)
  {
    res := FilterEntries(fList, true, fileFilter, dirFilter);
  }

  /** A pass over a concatenation is the concatenation of the passes: the
      relative order of the kept entries is the list's own. */
  lemma {:induction false} PassAppend(a: seq<File>, b: seq<File>, kind: Kind, isInverter: bool,
                                      filter: Option<seq<RegExp>>)
    ensures Pass(a + b, kind, isInverter, filter) == Pass(a, kind, isInverter, filter) + Pass(b, kind, isInverter, filter)
  {
    if |a| == 0 {
      assert a + b == b;
    } else {
      assert (a + b)[1..] == a[1..] + b;
      assert (a + b)[0] == a[0];
      PassAppend(a[1..], b, kind, isInverter, filter);
    }
  }

  /** Without a filter, inversion changes nothing. */
  lemma {:induction false} PassIgnoresInverter(fList: seq<File>, kind: Kind)
    ensures Pass(fList, kind, true, None) == Pass(fList, kind, false, None)
  {
    if |fList| > 0 {
      PassIgnoresInverter(fList[1..], kind);
    }
  }

  /** `Filter` and `NotMatchFilter` with the same filters split the entries
      of each kind between them: every entry of the kind lands in exactly one
      of the two results. */
  lemma {:induction false} PassPartition(fList: seq<File>, kind: Kind, regList: seq<RegExp>)
    ensures multiset(Pass(fList, kind, false, Some(regList))) + multiset(Pass(fList, kind, true, Some(regList)))
         == multiset(Pass(fList, kind, false, None))
  {
    if |fList| > 0 {
      PassPartition(fList[1..], kind, regList);
    }
  }

  /** The partition lifted to the whole of `_filter`. */
  lemma FilterPartition(fList: seq<File>, fileFilter: seq<RegExp>, dirFilter: seq<RegExp>)
    ensures multiset(FilterList(fList, false, Some(fileFilter), Some(dirFilter)))
          + multiset(FilterList(fList, true, Some(fileFilter), Some(dirFilter)))
         == multiset(FilterList(fList, false, None, None))
  {
    PassPartition(fList, RegularFile, fileFilter);
    PassPartition(fList, Directory, dirFilter);
  }

  /** An empty filter list (`File.EMPTY_FILTER`) keeps no entry of its kind
      in `Filter` and every entry of its kind in `NotMatchFilter`. */
  lemma {:induction false} PassEmptyFilter(fList: seq<File>, kind: Kind)
    ensures Pass(fList, kind, false, Some([])) == []
    ensures Pass(fList, kind, true, Some([])) == Pass(fList, kind, false, None)
  {
    if |fList| > 0 {
      PassEmptyFilter(fList[1..], kind);
      assert !AnyAccepts(fList[0].name, []);
    }
  }
}

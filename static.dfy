/** The patch generator's symbol correlation (generator/static.py).

    The generator reads the dynamic symbol table of the patched ELF, keeps the
    symbols whose names carry the `vzpatch` mangling, strips the mangling, and
    then maps each kept symbol's address in the patched ELF to the address of
    the same debug entity in the old ELF:

      patch address --(inverse of the patched debuginfo map)--> debug key
                    --(old debuginfo map)--> old address

    The ELF reader and the debuginfo reader are outside the model: the symbol
    table is a sequence of (name, value) entries, and each debuginfo result is
    a finite map from an opaque key type K to addresses. */
module Static {
  import opened Wrappers
  import opened Bits

  // ---------------------------------------------------------------------
  // Name codec
  // ---------------------------------------------------------------------

  /** The mangling prefix (`PREFIX`). */
  const Prefix: string := "vzpatch"

  /** What the anchored regular expression `^vzpatch_(\d+_)*` must see first. */
  const MangledHead: string := "vzpatch_"

  predicate StartsWith(s: string, p: string)
  {
    |p| <= |s| && s[..|p|] == p
  }

  /** `is_mangled`: `str.startswith(PREFIX)`; no underscore is required. */
  predicate IsMangled(n: string)
  {
    StartsWith(n, Prefix)
  }

  /** `\d` on a Python 2 byte string: an ASCII digit. */
  predicate IsDigit(c: char)
  {
    '0' <= c <= '9'
  }

  /** Length of the leading run of digits. */
  function DigitRun(s: string): (k: nat)
    ensures k <= |s|
    ensures forall i :: 0 <= i < k ==> IsDigit(s[i])
    ensures k < |s| ==> !IsDigit(s[k])
  {
    if s != [] && IsDigit(s[0]) then 1 + DigitRun(s[1..]) else 0
  }

  /** The greedy `(\d+_)*`: remove `<digits>_` groups from the front while
      there is one.  A digit run not followed by `_` is not a group. */
  function StripGroups(s: string): (r: string)
    ensures |r| <= |s|
    decreases |s|
  {
    var k := DigitRun(s);
    if 0 < k < |s| && s[k] == '_' then StripGroups(s[k + 1..]) else s
  }

  /** `demangle`: one anchored substitution of `^vzpatch_(\d+_)*` by nothing. */
  function Demangle(n: string): (r: string)
    ensures |r| <= |n|
  {
    if StartsWith(n, MangledHead) then StripGroups(n[|MangledHead|..]) else n
  }

  /** The transform passed to the debuginfo reader of the patched ELF
      (`lambda n: demangle(n) if is_mangled(n) else n`). */
  function TransformName(n: string): string
  {
    if IsMangled(n) then Demangle(n) else n
  }

  /** One `\d+_` group ending at index k of s: digits before k, `_` at k. */
  predicate GroupAt(s: string, k: nat)
  {
    0 < k < |s| && s[k] == '_' && (forall i :: 0 <= i < k ==> IsDigit(s[i]))
  }

  /** A string the group part `(\d+_)*` matches, by the regular expression's
      own grammar: empty, or one `\d+_` group followed by a match. */
  predicate GroupRun(g: string)
    decreases |g|
  {
    g == [] || exists k :: 0 < k < |g| && GroupAt(g, k) && GroupRun(g[k + 1..])
  }

  /** r does not begin with another `<digits>_` group. */
  predicate NoLeadingGroup(r: string)
  {
    !exists k :: 0 < k < |r| && GroupAt(r, k)
  }

  lemma MangledHeadIsMangled(n: string)
    requires StartsWith(n, MangledHead)
    ensures IsMangled(n)
  {
    assert n[..|Prefix|] == n[..|MangledHead|][..|Prefix|];
  }

  /** `is_mangled` is exactly the `vzpatch` prefix test, so a name can be mangled
      without the underscore that demangling needs ("vzpatchfoo"); the line-53
      transform agrees with `demangle` on every name. */
  lemma {:induction false} TransformAgreesWithDemangle(n: string)
    ensures IsMangled(n) <==> |n| >= 7 && n[..7] == "vzpatch"
    ensures !IsMangled(n) ==> Demangle(n) == n
    ensures TransformName(n) == Demangle(n)
  {
    if !IsMangled(n) && StartsWith(n, MangledHead) {
      MangledHeadIsMangled(n);
    }
  }

  lemma StripOneGroup(s: string)
    requires 0 < DigitRun(s) < |s| && s[DigitRun(s)] == '_'
    ensures StripGroups(s) == StripGroups(s[DigitRun(s) + 1..])
  {
  }

  /** The leading group can only end at the end of the leading digit run. */
  lemma NoLeadingGroupAt(r: string)
    requires !(0 < DigitRun(r) < |r| && r[DigitRun(r)] == '_')
    ensures NoLeadingGroup(r)
  {
    forall k: nat
      ensures !GroupAt(r, k)
    {
      DigitRunAtGroup(r, k);
    }
  }

  /** The group run in front of a stripped remainder, one group at a time. */
  lemma GroupRunPrefix(s: string, k: nat, t: string, r: string)
    requires GroupAt(s, k) && t == s[k + 1..]
    requires |r| <= |t| && GroupRun(t[..|t| - |r|])
    ensures GroupRun(s[..|s| - |r|])
  {
    var p := s[..|s| - |r|];
    assert p[k + 1..] == s[k + 1..][..|s| - (k + 1) - |r|];
    assert GroupAt(p, k);
  }

  lemma ShapeStep(s: string, k: nat, t: string, r: string)
    requires k == DigitRun(s) && 0 < k < |s| && s[k] == '_' && t == s[k + 1..]
    requires r == StripGroups(t) && GroupRun(t[..|t| - |r|])
    ensures StripGroups(s) == r && GroupRun(s[..|s| - |r|])
  {
    StripOneGroup(s);
    GroupRunPrefix(s, k, t, r);
  }

  /** `StripGroups` removes a group run and stops before a non-group. */
  lemma {:induction false} StripGroupsShape(s: string)
    ensures GroupRun(s[..|s| - |StripGroups(s)|])
    ensures NoLeadingGroup(StripGroups(s))
    decreases |s|
  {
    var k := DigitRun(s);
    if 0 < k < |s| && s[k] == '_' {
      var t := s[k + 1..];
      StripGroupsShape(t);
      ShapeStep(s, k, t, StripGroups(t));
    } else {
      ShapeBase(s);
    }
  }

  /** Without a leading group nothing is stripped, and the empty run is a match. */
  lemma ShapeBase(s: string)
    requires !(0 < DigitRun(s) < |s| && s[DigitRun(s)] == '_')
    ensures StripGroups(s) == s && GroupRun(s[..0]) && NoLeadingGroup(s)
  {
    NoLeadingGroupAt(s);
    assert s[..0] == [];
  }

  lemma SliceOfAppend<T>(a: seq<T>, b: seq<T>, i: nat)
    requires i <= |a|
    ensures (a + b)[i..] == a[i..] + b
  {
  }

  lemma {:induction false} StripGroupsSuffix(s: string)
    ensures StripGroups(s) == s[|s| - |StripGroups(s)|..]
    decreases |s|
  {
    var k := DigitRun(s);
    if 0 < k < |s| && s[k] == '_' {
      var t := s[k + 1..];
      StripGroupsSuffix(t);
      assert t[|t| - |StripGroups(t)|..] == s[|s| - |StripGroups(t)|..];
    }
  }

  /** `demangle` only ever removes a prefix: its result is a suffix of the name. */
  lemma DemangleIsSuffix(n: string)
    ensures |Demangle(n)| <= |n| && Demangle(n) == n[|n| - |Demangle(n)|..]
  {
    if StartsWith(n, MangledHead) {
      var s := n[|MangledHead|..];
      StripGroupsSuffix(s);
      assert s[|s| - |StripGroups(s)|..] == n[|n| - |StripGroups(s)|..];
    }
  }

  /** The leading digit run of s ends at any group end k. */
  lemma DigitRunAtGroup(s: string, k: nat)
    ensures GroupAt(s, k) ==> DigitRun(s) == k
  {
    var d := DigitRun(s);
    assert d < |s| ==> !IsDigit(s[d]);
  }

  lemma {:induction false} DigitRunAppend(g: string, r: string)
    requires DigitRun(g) < |g|
    ensures DigitRun(g + r) == DigitRun(g)
    decreases |g|
  {
    if IsDigit(g[0]) {
      SliceOfAppend(g, r, 1);
      DigitRunAppend(g[1..], r);
    }
  }

  lemma {:induction false} StripGroupRun(g: string, r: string)
    requires GroupRun(g) && NoLeadingGroup(r)
    ensures StripGroups(g + r) == r
    decreases |g|
  {
    if g == [] {
      assert g + r == r;
      assert !GroupAt(r, DigitRun(r));
    } else {
      var k :| 0 < k < |g| && GroupAt(g, k) && GroupRun(g[k + 1..]);
      DigitRunAtGroup(g, k);
      DigitRunAppend(g, r);
      StripOneGroup(g + r);
      SliceOfAppend(g, r, k + 1);
      StripGroupRun(g[k + 1..], r);
    }
  }

  /** A demangled name is what follows "vzpatch_" and a maximal run of
      `<digits>_` groups. */
  lemma DemangleDecomposes(n: string)
    requires StartsWith(n, MangledHead)
    ensures var r := Demangle(n);
      && |MangledHead| <= |n| - |r|
      && n == MangledHead + n[|MangledHead|..|n| - |r|] + r
      && GroupRun(n[|MangledHead|..|n| - |r|])
      && NoLeadingGroup(r)
  {
    var s := n[|MangledHead|..];
    DemangleIsSuffix(n);
    StripGroupsShape(s);
    var r := StripGroups(s);
    assert s[..|s| - |r|] == n[|MangledHead|..|n| - |r|];
    assert n == n[..|MangledHead|] + n[|MangledHead|..|n| - |r|] + n[|n| - |r|..];
  }

  /** Conversely, any such decomposition is the one `demangle` finds. */
  lemma DemangleOfDecomposed(g: string, r: string)
    requires GroupRun(g) && NoLeadingGroup(r)
    ensures Demangle(MangledHead + g + r) == r
  {
    var n := MangledHead + g + r;
    assert n[..|MangledHead|] == MangledHead;
    assert n[|MangledHead|..] == g + r;
    StripGroupRun(g, r);
  }

  /** `demangle` leaves a name alone exactly when it does not begin with
      "vzpatch_"; otherwise it shortens it. */
  lemma DemangleFixedPoint(m: string)
    ensures Demangle(m) == m <==> !StartsWith(m, MangledHead)
  {
    if StartsWith(m, MangledHead) {
      assert |Demangle(m)| <= |m| - |MangledHead|;
    }
  }

  /** Demangling twice changes nothing exactly when the first result does not
      itself begin with "vzpatch_": only one anchored prefix is removed. */
  lemma DemangleTwice(n: string)
    ensures Demangle(Demangle(n)) == Demangle(n) <==> !StartsWith(Demangle(n), MangledHead)
  {
    DemangleFixedPoint(Demangle(n));
  }

  /** Digit groups after "vzpatch_" are stripped. */
  lemma DemangleStripsGroups()
    ensures Demangle("vzpatch_12_34_bar") == "bar"
  {
    assert "vzpatch_12_34_bar" == MangledHead + "12_34_" + "bar";
    assert GroupAt("34_", 2) && "34_"[3..] == [];
    assert GroupAt("12_34_", 2) && "12_34_"[3..] == "34_";
    NoLeadingGroupAt("bar");
    DemangleOfDecomposed("12_34_", "bar");
  }

  /** A plain "vzpatch_" is stripped too. */
  lemma DemangleStripsHead()
    ensures Demangle("vzpatch_foo") == "foo"
  {
    assert "vzpatch_foo" == MangledHead + "" + "foo";
    NoLeadingGroupAt("foo");
    DemangleOfDecomposed("", "foo");
  }

  /** Names without "vzpatch_" are left alone, even a mangled "vzpatchfoo". */
  lemma DemangleKeepExamples()
    ensures Demangle("other_name") == "other_name"
    ensures IsMangled("vzpatchfoo") && Demangle("vzpatchfoo") == "vzpatchfoo"
  {
    assert "other_name"[0] != 'v';
    assert StartsWith("vzpatchfoo", Prefix);
    assert "vzpatchfoo"[7] != '_';
  }

  /** Only one anchored prefix is removed, so demangling is not idempotent. */
  lemma DemangleStripsOnce()
    ensures Demangle("vzpatch_vzpatch_foo") == "vzpatch_foo"
    ensures Demangle(Demangle("vzpatch_vzpatch_foo")) == "foo"
  {
    assert "vzpatch_vzpatch_foo" == MangledHead + "" + "vzpatch_foo";
    NoLeadingGroupAt("vzpatch_foo");
    DemangleOfDecomposed("", "vzpatch_foo");
    DemangleStripsHead();
  }

  // ---------------------------------------------------------------------
  // Dictionary inversion
  // ---------------------------------------------------------------------

  predicate Injective<K, V(==)>(d: map<K, V>)
  {
    forall k1, k2 :: k1 in d && k2 in d && d[k1] == d[k2] ==> k1 == k2
  }

  lemma {:induction false} ValuesAtMostKeys<K, V>(d: map<K, V>)
    ensures |d.Values| <= |d|
    decreases |d|
  {
    if |d| > 0 {
      var k :| k in d;
      var d' := d - {k};
      ValuesAtMostKeys(d');
      assert d.Values <= d'.Values + {d[k]} by {
        forall v | v in d.Values
          ensures v in d'.Values + {d[k]}
        {
          var j :| j in d && d[j] == v;
          if j != k {
            assert j in d';
          }
        }
      }
      assert |d'.Values + {d[k]}| <= |d'.Values| + 1;
    }
  }

  /** The size test of `reverse_mapping` is exactly injectivity. */
  lemma {:induction false} DistinctValuesIffInjective<K, V>(d: map<K, V>)
    ensures |d.Values| == |d| <==> Injective(d)
    decreases |d|
  {
    if |d| == 0 {
      return;
    }
    if Injective(d) {
      var k :| k in d;
      var d' := d - {k};
      assert Injective(d');
      DistinctValuesIffInjective(d');
      assert d.Values == d'.Values + {d[k]} by {
        forall v | v in d.Values
          ensures v in d'.Values + {d[k]}
        {
          var j :| j in d && d[j] == v;
          if j != k {
            assert j in d';
          }
        }
        forall v | v in d'.Values
          ensures v in d.Values
        {
          var j :| j in d' && d'[j] == v;
          assert j in d;
        }
      }
      assert d[k] !in d'.Values;
    } else {
      var k1, k2 :| k1 in d && k2 in d && d[k1] == d[k2] && k1 != k2;
      var d' := d - {k1};
      ValuesAtMostKeys(d');
      assert d.Values == d'.Values by {
        forall v | v in d.Values
          ensures v in d'.Values
        {
          var j :| j in d && d[j] == v;
          if j == k1 {
            assert d'[k2] == v;
          } else {
            assert j in d';
          }
        }
        forall v | v in d'.Values
          ensures v in d.Values
        {
          var j :| j in d' && d'[j] == v;
          assert j in d;
        }
      }
    }
  }

  /** `reverse_mapping`: the inverted dictionary, or None where the length
      assertion fails (two keys share a value). */
  function ReverseMapping<K, V(==)>(d: map<K, V>): (r: Option<map<V, K>>)
    ensures r.Some? <==> Injective(d)
    ensures r.Some? ==>
      && r.value.Keys == d.Values
      && r.value.Values == d.Keys
      && |r.value| == |d|
      && (forall k :: k in d ==> d[k] in r.value && r.value[d[k]] == k)
      && (forall v :: v in r.value ==> r.value[v] in d && d[r.value[v]] == v)
  {
    DistinctValuesIffInjective(d);
    if |d.Values| == |d| then
      var inv := map k | k in d :: d[k] := k;
      assert inv.Keys == d.Values;
      assert inv.Values == d.Keys by {
        forall k | k in d
          ensures k in inv.Values
        {
          assert inv[d[k]] == k;
        }
      }
      Some(inv)
    else
      None
  }

  // ---------------------------------------------------------------------
  // The scan of `.dynsym` (lines 36-46)
  // ---------------------------------------------------------------------

  /** A dynamic symbol: its name and `st_value`. */
  datatype Symbol = Symbol(name: string, value: u64)

  /** A `sym_info` entry: symbol index, demangled name, address. */
  datatype SymInfo = SymInfo(index: nat, name: string, addr: u64)

  /** The entries the scan has appended after visiting the first `upto` symbols. */
  function MangledEntries(table: seq<Symbol>, upto: nat): seq<SymInfo>
    requires upto <= |table|
  {
    if upto == 0 then []
    else
      var s := table[upto - 1];
      MangledEntries(table, upto - 1)
        + (if IsMangled(s.name) then [SymInfo(upto - 1, Demangle(s.name), s.value)] else [])
  }

  /** Visiting one more symbol keeps the entries so far and appends at most one. */
  lemma MangledEntriesStep(table: seq<Symbol>, upto: nat)
    requires 0 < upto <= |table|
    ensures var e0, e := MangledEntries(table, upto - 1), MangledEntries(table, upto);
      && (forall j :: 0 <= j < |e0| ==> e[j] == e0[j])
      && (IsMangled(table[upto - 1].name) ==>
            |e| == |e0| + 1
            && e[|e0|] == SymInfo(upto - 1, Demangle(table[upto - 1].name), table[upto - 1].value))
      && (!IsMangled(table[upto - 1].name) ==> e == e0)
  {
  }

  /** Every kept entry is a mangled symbol with its demangled name and value. */
  lemma {:induction false} MangledEntriesSound(table: seq<Symbol>, upto: nat)
    requires upto <= |table|
    ensures var e := MangledEntries(table, upto);
      forall j :: 0 <= j < |e| ==>
        && e[j].index < upto
        && IsMangled(table[e[j].index].name)
        && e[j].name == Demangle(table[e[j].index].name)
        && e[j].addr == table[e[j].index].value
  {
    if upto > 0 {
      MangledEntriesSound(table, upto - 1);
      MangledEntriesStep(table, upto);
    }
  }

  /** Every mangled symbol is kept. */
  lemma {:induction false} MangledEntriesComplete(table: seq<Symbol>, upto: nat)
    requires upto <= |table|
    ensures var e := MangledEntries(table, upto);
      forall i :: 0 <= i < upto && IsMangled(table[i].name) ==>
        exists j :: 0 <= j < |e| && e[j].index == i
  {
    if upto > 0 {
      MangledEntriesComplete(table, upto - 1);
      var e0 := MangledEntries(table, upto - 1);
      var e := MangledEntries(table, upto);
      MangledEntriesStep(table, upto);
      forall i | 0 <= i < upto && IsMangled(table[i].name)
        ensures exists j :: 0 <= j < |e| && e[j].index == i
      {
        if i < upto - 1 {
          var j :| 0 <= j < |e0| && e0[j].index == i;
          assert e[j] == e0[j];
        } else {
          assert e[|e| - 1].index == i;
        }
      }
    }
  }

  /** Kept entries are in table order: indices strictly increase. */
  lemma {:induction false} MangledEntriesOrdered(table: seq<Symbol>, upto: nat)
    requires upto <= |table|
    ensures var e := MangledEntries(table, upto);
      forall j1, j2 :: 0 <= j1 < j2 < |e| ==> e[j1].index < e[j2].index
  {
    if upto > 0 {
      MangledEntriesOrdered(table, upto - 1);
      MangledEntriesSound(table, upto - 1);
      MangledEntriesStep(table, upto);
    }
  }

  /** The names the scan collects (`sym_names`). */
  function NameSet(entries: seq<SymInfo>): set<string>
  {
    set e | e in entries :: e.name
  }

  /** The demangled names of the mangled symbols of `table`. */
  function MangledNames(table: seq<Symbol>): set<string>
  {
    set i | 0 <= i < |table| && IsMangled(table[i].name) :: Demangle(table[i].name)
  }

  /** `sym_names` is the set of demangled names of the mangled symbols. */
  lemma NamesOfEntries(table: seq<Symbol>)
    ensures NameSet(MangledEntries(table, |table|)) == MangledNames(table)
  {
    NamesComplete(table);
    NamesSound(table);
  }

  /** Every mangled symbol's demangled name is collected. */
  lemma NamesComplete(table: seq<Symbol>)
    ensures MangledNames(table) <= NameSet(MangledEntries(table, |table|))
  {
    var e := MangledEntries(table, |table|);
    MangledEntriesComplete(table, |table|);
    forall x | x in MangledNames(table)
      ensures x in NameSet(e)
    {
      var i :| 0 <= i < |table| && IsMangled(table[i].name) && x == Demangle(table[i].name);
      var j :| 0 <= j < |e| && e[j].index == i;
      MangledEntriesSound(table, |table|);
      assert e[j] in e;
    }
  }

  /** Only the demangled names of mangled symbols are collected. */
  lemma NamesSound(table: seq<Symbol>)
    ensures NameSet(MangledEntries(table, |table|)) <= MangledNames(table)
  {
    var e := MangledEntries(table, |table|);
    forall en | en in e
      ensures en.name in MangledNames(table)
    {
      var j :| 0 <= j < |e| && e[j] == en;
      EntryOrigin(table, j);
      var i := e[j].index;
      assert 0 <= i < |table| && IsMangled(table[i].name);
    }
  }

  /** Where the j-th kept entry comes from. */
  lemma EntryOrigin(table: seq<Symbol>, j: nat)
    requires j < |MangledEntries(table, |table|)|
    ensures var en := MangledEntries(table, |table|)[j];
      && en.index < |table| && IsMangled(table[en.index].name)
      && en.name == Demangle(table[en.index].name)
  {
    MangledEntriesSound(table, |table|);
  }

  /** The scan: `sym_info` and `sym_names` as the loop leaves them. */
  method Scan(table: seq<Symbol>) returns (symInfo: seq<SymInfo>, symNames: set<string>)
    ensures symInfo == MangledEntries(table, |table|)
    ensures symNames == NameSet(symInfo)
    ensures forall j1, j2 :: 0 <= j1 < j2 < |symInfo| ==> symInfo[j1].index < symInfo[j2].index
    ensures symNames == MangledNames(table)
  {
    symInfo, symNames := [], {};
    var idx := 0;
    while idx < |table|
      invariant idx <= |table|
      invariant symInfo == MangledEntries(table, idx)
      invariant symNames == NameSet(symInfo)
    {
      var sym := table[idx];
      if IsMangled(sym.name) {
        var nameOrig := Demangle(sym.name);
        symInfo := symInfo + [SymInfo(idx, nameOrig, sym.value)];
        symNames := symNames + {nameOrig};
      }
      idx := idx + 1;
    }
    MangledEntriesOrdered(table, |table|);
    NamesOfEntries(table);
  }

  /** Two mangled variants of one name give two entries but one name. */
  lemma ScanMergesVariants()
    ensures var t := [Symbol("vzpatch_1_foo", 16), Symbol("vzpatch_2_foo", 32)];
      && MangledEntries(t, 2) == [SymInfo(0, "foo", 16), SymInfo(1, "foo", 32)]
      && NameSet(MangledEntries(t, 2)) == {"foo"}
  {
    var t := [Symbol("vzpatch_1_foo", 16), Symbol("vzpatch_2_foo", 32)];
    DemangleVariants();
    MangledHeadIsMangled("vzpatch_1_foo");
    MangledHeadIsMangled("vzpatch_2_foo");
    MangledEntriesStep(t, 1);
    MangledEntriesStep(t, 2);
    var e := MangledEntries(t, 2);
    assert e == [SymInfo(0, "foo", 16), SymInfo(1, "foo", 32)];
  }

  lemma DemangleVariants()
    ensures Demangle("vzpatch_1_foo") == "foo" && Demangle("vzpatch_2_foo") == "foo"
  {
    NoLeadingGroupAt("foo");
    assert "vzpatch_1_foo" == MangledHead + "1_" + "foo";
    assert "vzpatch_2_foo" == MangledHead + "2_" + "foo";
    assert GroupAt("1_", 1) && "1_"[2..] == [];
    assert GroupAt("2_", 1) && "2_"[2..] == [];
    DemangleOfDecomposed("1_", "foo");
    DemangleOfDecomposed("2_", "foo");
  }

  // ---------------------------------------------------------------------
  // Resolution (lines 58-61)
  // ---------------------------------------------------------------------

  /** What one iteration of the resolution loop reports: the symbol index, its
      address in the old ELF and its name. */
  datatype Resolved = Resolved(index: nat, oldAddr: u64, name: string)

  /** Both dictionary lookups of line 59 succeed for this entry. */
  predicate Resolvable<K>(e: SymInfo, pAddr2di: map<u64, K>, oDi2addr: map<K, u64>)
  {
    e.addr in pAddr2di && pAddr2di[e.addr] in oDi2addr
  }

  /** The resolution loop.  `failedAt` is the position of the entry whose lookup
      raised `KeyError`, which ends the loop; `lines` are the entries reported
      before that. */
  method Resolve<K>(symInfo: seq<SymInfo>, pAddr2di: map<u64, K>, oDi2addr: map<K, u64>)
    returns (lines: seq<Resolved>, failedAt: Option<nat>)
    ensures failedAt.None? <==> forall j :: 0 <= j < |symInfo| ==> Resolvable(symInfo[j], pAddr2di, oDi2addr)
    ensures failedAt.None? ==> |lines| == |symInfo|
    ensures failedAt.Some? ==>
      && failedAt.value < |symInfo|
      && |lines| == failedAt.value
      && !Resolvable(symInfo[failedAt.value], pAddr2di, oDi2addr)
    ensures forall j :: 0 <= j < |lines| ==>
      && Resolvable(symInfo[j], pAddr2di, oDi2addr)
      && lines[j] == Resolved(symInfo[j].index, oDi2addr[pAddr2di[symInfo[j].addr]], symInfo[j].name)
  {
    lines := [];
    var j := 0;
    while j < |symInfo|
      invariant j <= |symInfo| && |lines| == j
      invariant forall i :: 0 <= i < j ==>
        && Resolvable(symInfo[i], pAddr2di, oDi2addr)
        && lines[i] == Resolved(symInfo[i].index, oDi2addr[pAddr2di[symInfo[i].addr]], symInfo[i].name)
    {
      var e := symInfo[j];
      if e.addr !in pAddr2di || pAddr2di[e.addr] !in oDi2addr {
        return lines, Some(j);
      }
      var oAddr := oDi2addr[pAddr2di[e.addr]];
      lines := lines + [Resolved(e.index, oAddr, e.name)];
      j := j + 1;
    }
    failedAt := None;
  }

  // ---------------------------------------------------------------------
  // The whole pass
  // ---------------------------------------------------------------------

  datatype Outcome =
    | NotInjective               // the assertion in `reverse_mapping` fails
    | LookupFailed(at: nat, reported: seq<Resolved>)   // `KeyError` at entry `at`
    | Done(reported: seq<Resolved>)

  /** Some debug key of the patched ELF names this address and is known in the
      old ELF. */
  predicate KnownInBoth<K>(e: SymInfo, pDi2addr: map<K, u64>, oDi2addr: map<K, u64>)
  {
    exists k :: k in pDi2addr && pDi2addr[k] == e.addr && k in oDi2addr
  }

  /** The generator from the symbol scan to the last resolution, given the two
      debuginfo maps (key to address).  Only the patched ELF's map is checked
      for injectivity; the old ELF's map is used as it is.  A reported old
      address is the old ELF's address of the debug key that has the symbol's
      address in the patched ELF. */
  method Correlate<K>(table: seq<Symbol>, oDi2addr: map<K, u64>, pDi2addr: map<K, u64>)
    returns (out: Outcome)
    ensures out == NotInjective <==> !Injective(pDi2addr)
    ensures out.Done? ==>
      var entries := MangledEntries(table, |table|);
      && |out.reported| == |entries|
      && (forall j :: 0 <= j < |entries| ==> KnownInBoth(entries[j], pDi2addr, oDi2addr))
    ensures out.LookupFailed? ==>
      var entries := MangledEntries(table, |table|);
      && out.at < |entries|
      && |out.reported| == out.at
      && !KnownInBoth(entries[out.at], pDi2addr, oDi2addr)
      && (forall j :: 0 <= j < out.at ==> KnownInBoth(entries[j], pDi2addr, oDi2addr))
    ensures (out.Done? || out.LookupFailed?) ==>
      var entries := MangledEntries(table, |table|);
      forall j, k :: 0 <= j < |out.reported| && k in pDi2addr && pDi2addr[k] == entries[j].addr ==>
        && k in oDi2addr
        && out.reported[j] == Resolved(entries[j].index, oDi2addr[k], entries[j].name)
  {
    var symInfo, symNames := Scan(table);
    var rev := ReverseMapping(pDi2addr);
    if rev.None? {
      return NotInjective;
    }
    var pAddr2di := rev.value;
    var lines, failedAt := Resolve(symInfo, pAddr2di, oDi2addr);
    forall e | e in symInfo
      ensures Resolvable(e, pAddr2di, oDi2addr) <==> KnownInBoth(e, pDi2addr, oDi2addr)
    {
      if KnownInBoth(e, pDi2addr, oDi2addr) {
        var k :| k in pDi2addr && pDi2addr[k] == e.addr && k in oDi2addr;
        assert pAddr2di[pDi2addr[k]] == k;
      }
    }
    if failedAt.None? {
      out := Done(lines);
    } else {
      out := LookupFailed(failedAt.value, lines);
    }
    forall j, k | 0 <= j < |lines| && k in pDi2addr && pDi2addr[k] == symInfo[j].addr
      ensures k in oDi2addr && lines[j] == Resolved(symInfo[j].index, oDi2addr[k], symInfo[j].name)
    {
      assert pAddr2di[pDi2addr[k]] == k;
    }
    assert forall j :: 0 <= j < |symInfo| ==> symInfo[j] in symInfo;
  }
}

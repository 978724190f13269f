/** Column standardisation of the counting-site converter (`_standardize_columns`):
    headers whose normalised form is one of four target names are renamed to it. */
module Standardize {
  import opened Wrappers
  import opened Frames
  import opened HeaderNames

  const CountingSiteId := "counting_site_id"
  const CountingSiteName := "counting_site_name"
  const EastCoordinate := "east_coordinate"
  const NorthCoordinate := "north_coordinate"

  /** The four target names, in the insertion order of the alias dictionary. */
  const Targets: seq<string> := [CountingSiteId, CountingSiteName, EastCoordinate, NorthCoordinate]

  /** An alias table: target names, each with the normalised aliases tried for it in order. */
  type AliasTable = seq<(string, seq<string>)>

  /** The alias dictionary as the converter builds it: the literal lists, the two
      entries each list is extended with, and the key itself appended last. */
  const Aliases: AliasTable := [
    (CountingSiteId, [CountingSiteId, CountingSiteId, CountingSiteId, CountingSiteId]
                     + [CountingSiteId, CountingSiteId] + [CountingSiteId]),
    (CountingSiteName, [CountingSiteName, CountingSiteName]
                       + [CountingSiteName, CountingSiteName] + [CountingSiteName]),
    (EastCoordinate, [EastCoordinate, EastCoordinate]
                     + [EastCoordinate, EastCoordinate] + [EastCoordinate]),
    (NorthCoordinate, [NorthCoordinate, NorthCoordinate]
                      + [NorthCoordinate, NorthCoordinate] + [NorthCoordinate])
  ]

  /** No later header has the same normalised form as the header at `i`. */
  predicate LastWithKey(h: seq<string>, i: nat)
    requires i < |h|
  {
    forall j :: i < j < |h| ==> Normalize(h[j]) != Normalize(h[i])
  }

  /** No later entry of `keys` repeats the one at `i`. */
  predicate LastIn<K(==)>(keys: seq<K>, i: nat)
    requires i < |keys|
  {
    forall j :: i < j < |keys| ==> keys[j] != keys[i]
  }

  /** The position of the last entry of `keys` equal to `k`. */
  function LastIndexOf<K(==)>(keys: seq<K>, k: K): (i: nat)
    requires k in keys
    ensures i < |keys| && keys[i] == k && LastIn(keys, i)
  {
    var n := |keys| - 1;
    if keys[n] == k then n
    else
      assert k in keys[..n] by {
        var j :| 0 <= j < |keys| && keys[j] == k;
        assert keys[..n][j] == k;
      }
      var i := LastIndexOf(keys[..n], k);
      assert forall j :: i < j < n ==> keys[j] == keys[..n][j];
      i
  }

  /** The last entry with a given key is the one `LastIndexOf` finds. */
  lemma LastIndexOfUnique<K>(keys: seq<K>, i: nat)
    requires i < |keys| && LastIn(keys, i)
    ensures LastIndexOf(keys, keys[i]) == i
  {
    var j := LastIndexOf(keys, keys[i]);
    assert !(i < j) && !(j < i);
  }

  /** The dictionary comprehension `{keys[i]: vals[i] for i ...}`: a later entry
      overwrites an earlier one with the same key. */
  function Dict<K(!new), V>(keys: seq<K>, vals: seq<V>): (m: map<K, V>)
    requires |keys| == |vals|
    ensures forall k :: k in m <==> k in keys
    ensures forall k :: k in m ==> m[k] == vals[LastIndexOf(keys, k)]
  {
    if |keys| == 0 then map[]
    else
      var n := |keys| - 1;
      var mi := Dict(keys[..n], vals[..n]);
      DictStep(keys, vals, mi);
      mi[keys[n] := vals[n]]
  }

  lemma DictStep<K(!new), V>(keys: seq<K>, vals: seq<V>, mi: map<K, V>)
    requires |keys| == |vals| > 0
    requires forall k :: k in mi <==> k in keys[..|keys| - 1]
    requires forall k :: k in mi ==> mi[k] == vals[..|keys| - 1][LastIndexOf(keys[..|keys| - 1], k)]
    ensures var m := mi[keys[|keys| - 1] := vals[|keys| - 1]];
      && (forall k :: k in m <==> k in keys)
      && (forall k :: k in m ==> m[k] == vals[LastIndexOf(keys, k)])
  {
    var n := |keys| - 1;
    assert keys == keys[..n] + [keys[n]];
    forall k | k in keys && k != keys[n]
      ensures k in keys[..n] && LastIndexOf(keys, k) == LastIndexOf(keys[..n], k)
    {
      var j :| 0 <= j < |keys| && keys[j] == k;
      assert keys[..n][j] == k;
    }
  }

  /** The normalised form of every header, position by position. */
  function Keys(h: seq<string>): (r: seq<string>)
    ensures |r| == |h| && forall i :: 0 <= i < |h| ==> r[i] == Normalize(h[i])
  {
    seq(|h|, i requires 0 <= i < |h| => Normalize(h[i]))
  }

  /** The dictionary from normalised name to original header. Each key maps to the
      rightmost header that normalises to it. */
  function Index(h: seq<string>): (m: map<string, string>)
    ensures forall i :: 0 <= i < |h| ==> Normalize(h[i]) in m
    ensures forall k :: k in m ==> m[k] in h && Normalize(m[k]) == k
    ensures forall i :: 0 <= i < |h| && LastWithKey(h, i) ==> m[Normalize(h[i])] == h[i]
  {
    IndexSpec(h);
    Dict(Keys(h), h)
  }

  lemma IndexSpec(h: seq<string>)
    ensures forall i :: 0 <= i < |h| ==> Normalize(h[i]) in Dict(Keys(h), h)
    ensures forall k :: k in Dict(Keys(h), h) ==> Dict(Keys(h), h)[k] in h && Normalize(Dict(Keys(h), h)[k]) == k
    ensures forall i :: 0 <= i < |h| && LastWithKey(h, i) ==> Dict(Keys(h), h)[Normalize(h[i])] == h[i]
  {
    IndexHasEveryKey(h);
    IndexValuesAreHeaders(h);
    IndexKeepsLast(h);
  }

  lemma IndexHasEveryKey(h: seq<string>)
    ensures forall i :: 0 <= i < |h| ==> Normalize(h[i]) in Dict(Keys(h), h)
  {
    var keys := Keys(h);
    forall i | 0 <= i < |h|
      ensures Normalize(h[i]) in Dict(Keys(h), h)
    {
      assert keys[i] in keys;
    }
  }

  lemma IndexValuesAreHeaders(h: seq<string>)
    ensures forall k :: k in Dict(Keys(h), h) ==> Dict(Keys(h), h)[k] in h && Normalize(Dict(Keys(h), h)[k]) == k
  {
    var keys := Keys(h);
    forall k | k in Dict(Keys(h), h)
      ensures Dict(Keys(h), h)[k] in h && Normalize(Dict(Keys(h), h)[k]) == k
    {
      var i := LastIndexOf(keys, k);
      assert Dict(Keys(h), h)[k] == h[i];
    }
  }

  lemma IndexKeepsLast(h: seq<string>)
    ensures forall i :: 0 <= i < |h| && LastWithKey(h, i) ==> Dict(Keys(h), h)[Normalize(h[i])] == h[i]
  {
    var keys := Keys(h);
    IndexHasEveryKey(h);
    forall i | 0 <= i < |h| && LastWithKey(h, i)
      ensures Dict(Keys(h), h)[Normalize(h[i])] == h[i]
    {
      assert LastIn(keys, i);
      LastIndexOfUnique(keys, i);
    }
  }

  /** The first alias of `aliases` that is a key of `index` (the inner loop with its `break`). */
  function FirstAlias(aliases: seq<string>, index: map<string, string>): (r: Option<string>)
    ensures r.None? <==> forall a :: a in aliases ==> a !in index
    ensures r.Some? ==> r.value in index
    ensures r.Some? ==> exists i ::
              0 <= i < |aliases| && aliases[i] == r.value && forall j :: 0 <= j < i ==> aliases[j] !in index
  {
    if |aliases| == 0 then None
    else if aliases[0] in index then Some(aliases[0])
    else
      var r := FirstAlias(aliases[1..], index);
      assert forall a :: a in aliases ==> a == aliases[0] || a in aliases[1..];
      assert r.Some? ==> exists i :: 0 <= i < |aliases| && aliases[i] == r.value
                            && forall j :: 0 <= j < i ==> aliases[j] !in index by {
        if r.Some? {
          var i :| 0 <= i < |aliases[1..]| && aliases[1..][i] == r.value
                   && forall j :: 0 <= j < i ==> aliases[1..][j] !in index;
          assert aliases[i + 1] == r.value;
          assert forall j :: 0 <= j < i + 1 ==> aliases[j] !in index by {
            forall j | 0 <= j < i + 1 ensures aliases[j] !in index {
              if j > 0 { assert aliases[j] == aliases[1..][j - 1]; }
            }
          }
        }
      }
      r
  }

  /** The target names of an alias table. */
  function TableTargets(table: AliasTable): set<string> {
    set j | 0 <= j < |table| :: table[j].0
  }

  /** The rename dictionary built by the outer loop over the targets, starting from
      `acc`. A later target that reaches the same original header overwrites it. */
  function RenameMapFrom(table: AliasTable, index: map<string, string>, acc: map<string, string>)
    : map<string, string>
  {
    if |table| == 0 then acc
    else
      var acc' := match FirstAlias(table[0].1, index)
                  case Some(a) => acc[index[a] := table[0].0]
                  case None => acc;
      RenameMapFrom(table[1..], index, acc')
  }

  /** The loop only adds entries: it keeps every key of `acc`, every new key is an
      original header kept by the normalised-name dictionary, and every entry either
      maps to one of the table's targets or is an entry of `acc`. */
  lemma {:induction false} RenameMapFromSpec(table: AliasTable, index: map<string, string>, acc: map<string, string>)
    ensures var r := RenameMapFrom(table, index, acc);
            && acc.Keys <= r.Keys <= acc.Keys + index.Values
            && forall k :: k in r ==> r[k] in TableTargets(table) || (k in acc && r[k] == acc[k])
  {
    if |table| > 0 {
      var acc' := match FirstAlias(table[0].1, index)
                  case Some(a) => acc[index[a] := table[0].0]
                  case None => acc;
      RenameMapFromSpec(table[1..], index, acc');
      assert TableTargets(table[1..]) <= TableTargets(table) by {
        forall x | x in TableTargets(table[1..]) ensures x in TableTargets(table) {
          var j :| 0 <= j < |table[1..]| && table[1..][j].0 == x;
          assert table[j + 1].0 == x;
        }
      }
      assert table[0].0 in TableTargets(table);
    }
  }

  /** `DataFrame.rename(columns=m)`: a label that is a key of `m` becomes its value. */
  function Rename(h: seq<string>, m: map<string, string>): (r: seq<string>)
    ensures |r| == |h|
    ensures forall i :: 0 <= i < |h| ==> r[i] == (if h[i] in m then m[h[i]] else h[i])
    ensures forall x :: x in r ==> (x in h && x !in m) || x in m.Values
    ensures (forall i :: 0 <= i < |h| ==> h[i] !in m) ==> r == h
  {
    seq(|h|, i requires 0 <= i < |h| => if h[i] in m then m[h[i]] else h[i])
  }

  /** Standardisation with a given alias table: every label keeps its position and
      either stays as it is or becomes one of the table's targets. */
  function StandardizeWith(h: seq<string>, table: AliasTable): (r: seq<string>)
    ensures |r| == |h|
    ensures forall i :: 0 <= i < |h| ==> r[i] == h[i] || r[i] in TableTargets(table)
  {
    RenameMapFromSpec(table, Index(h), map[]);
    Rename(h, RenameMapFrom(table, Index(h), map[]))
  }

  /** `_standardize_columns` with the converter's alias dictionary. */
  function StandardizeColumns(h: seq<string>): (r: seq<string>)
    ensures |r| == |h|
    ensures forall i :: 0 <= i < |h| ==> r[i] == h[i] || r[i] in Targets
  {
    assert forall x :: x in TableTargets(Aliases) ==> x in Targets;
    StandardizeWith(h, Aliases)
  }

  // ---------------------------------------------------------------------------
  // Duplicate aliases

  /** `xs` without repetitions, keeping first occurrences, and skipping `seen`. */
  function DedupFrom(xs: seq<string>, seen: set<string>): (r: seq<string>)
    ensures forall x :: x in r <==> x in xs && x !in seen
    ensures Distinct(r)
  {
    if |xs| == 0 then []
    else if xs[0] in seen then DedupFrom(xs[1..], seen)
    else
      var rest := DedupFrom(xs[1..], seen + {xs[0]});
      assert forall x :: x in xs <==> x == xs[0] || x in xs[1..];
      [xs[0]] + rest
  }

  function Dedup(xs: seq<string>): seq<string> {
    DedupFrom(xs, {})
  }

  function DedupTable(table: AliasTable): (r: AliasTable)
    ensures |r| == |table|
    ensures forall i :: 0 <= i < |table| ==> r[i] == (table[i].0, Dedup(table[i].1))
  {
    seq(|table|, i requires 0 <= i < |table| => (table[i].0, Dedup(table[i].1)))
  }

  lemma {:induction false} FirstAliasDedupFrom(xs: seq<string>, seen: set<string>, index: map<string, string>)
    requires forall x :: x in seen ==> x !in index
    ensures FirstAlias(xs, index) == FirstAlias(DedupFrom(xs, seen), index)
  {
    if |xs| > 0 {
      if xs[0] in seen {
        FirstAliasDedupFrom(xs[1..], seen, index);
      } else if xs[0] !in index {
        FirstAliasDedupFrom(xs[1..], seen + {xs[0]}, index);
        var d := [xs[0]] + DedupFrom(xs[1..], seen + {xs[0]});
        assert d[1..] == DedupFrom(xs[1..], seen + {xs[0]});
      }
    }
  }

  lemma {:induction false} RenameMapDedup(table: AliasTable, index: map<string, string>, acc: map<string, string>)
    ensures RenameMapFrom(table, index, acc) == RenameMapFrom(DedupTable(table), index, acc)
  {
    if |table| > 0 {
      FirstAliasDedupFrom(table[0].1, {}, index);
      var acc' := match FirstAlias(table[0].1, index)
                  case Some(a) => acc[index[a] := table[0].0]
                  case None => acc;
      RenameMapDedup(table[1..], index, acc');
      assert DedupTable(table)[1..] == DedupTable(table[1..]);
    }
  }

  /** Repeated entries in an alias list change nothing: standardising with the table
      equals standardising with every alias list reduced to its distinct entries. */
  lemma AliasDuplicatesHaveNoEffect(h: seq<string>, table: AliasTable)
    ensures StandardizeWith(h, table) == StandardizeWith(h, DedupTable(table))
  {
    RenameMapDedup(table, Index(h), map[]);
  }

  /** The table in which each target is its own only alias. */
  function SelfAliases(ts: seq<string>): (r: AliasTable)
    ensures |r| == |ts| && forall i :: 0 <= i < |ts| ==> r[i] == (ts[i], [ts[i]])
  {
    seq(|ts|, i requires 0 <= i < |ts| => (ts[i], [ts[i]]))
  }

  lemma {:induction false} DedupAllSeen(xs: seq<string>, seen: set<string>)
    requires forall k :: 0 <= k < |xs| ==> xs[k] in seen
    ensures DedupFrom(xs, seen) == []
  {
    if |xs| > 0 {
      DedupAllSeen(xs[1..], seen);
    }
  }

  lemma DedupRepeated(t: string, n: nat)
    requires n > 0
    ensures Dedup(seq(n, _ => t)) == [t]
  {
    var xs := seq(n, _ => t);
    assert xs[1..] == seq(n - 1, _ => t);
    var rest := DedupFrom(xs[1..], {t});
    DedupAllSeen(xs[1..], {t});
    assert {} + {xs[0]} == {t};
    assert Dedup(xs) == [t] + rest;
  }

  /** The converter's dictionary reduces to every target being its own only alias. */
  lemma AliasesAreSelfAliases()
    ensures DedupTable(Aliases) == SelfAliases(Targets)
  {
    assert Aliases[0].1 == seq(7, _ => CountingSiteId);
    assert Aliases[1].1 == seq(5, _ => CountingSiteName);
    assert Aliases[2].1 == seq(5, _ => EastCoordinate);
    assert Aliases[3].1 == seq(5, _ => NorthCoordinate);
    DedupRepeated(CountingSiteId, 7);
    DedupRepeated(CountingSiteName, 5);
    DedupRepeated(EastCoordinate, 5);
    DedupRepeated(NorthCoordinate, 5);
  }

  // ---------------------------------------------------------------------------
  // What standardisation does to each header

  /** `x` is the header the index keeps for its normalised form, and that form is one of `ts`. */
  predicate Chosen(ts: seq<string>, index: map<string, string>, x: string) {
    Normalize(x) in ts && Normalize(x) in index && index[Normalize(x)] == x
  }

  lemma {:induction false} SelfAliasRenameMap(ts: seq<string>, index: map<string, string>, acc: map<string, string>)
    requires forall k :: k in index ==> Normalize(index[k]) == k
    ensures forall x :: x in RenameMapFrom(SelfAliases(ts), index, acc) <==> x in acc || Chosen(ts, index, x)
    ensures forall x :: x in RenameMapFrom(SelfAliases(ts), index, acc) ==>
              RenameMapFrom(SelfAliases(ts), index, acc)[x]
                == if Chosen(ts, index, x) then Normalize(x) else acc[x]
  {
    if |ts| > 0 {
      var t := ts[0];
      SelfAliasStep(ts, index, acc);
      ChosenStep(ts, index);
      var acc' := if t in index then acc[index[t] := t] else acc;
      SelfAliasRenameMap(ts[1..], index, acc');
    }
  }

  /** One round of the outer loop on a self-alias table: the first target is renamed
      from the header the index keeps for it, if any. */
  lemma SelfAliasStep(ts: seq<string>, index: map<string, string>, acc: map<string, string>)
    requires |ts| > 0
    ensures RenameMapFrom(SelfAliases(ts), index, acc)
            == RenameMapFrom(SelfAliases(ts[1..]), index,
                             if ts[0] in index then acc[index[ts[0]] := ts[0]] else acc)
  {
    var t := ts[0];
    var table := SelfAliases(ts);
    assert table[1..] == SelfAliases(ts[1..]);
    assert table[0].1 == [t];
    assert FirstAlias([t], index) == if t in index then Some(t) else None;
  }

  /** The headers chosen for `ts`: the one kept for its first target, and those chosen
      for the rest. */
  lemma ChosenStep(ts: seq<string>, index: map<string, string>)
    requires |ts| > 0
    requires forall k :: k in index ==> Normalize(index[k]) == k
    ensures forall x :: Chosen(ts, index, x) <==> (ts[0] in index && x == index[ts[0]]) || Chosen(ts[1..], index, x)
  {
    assert forall x :: Normalize(x) in ts <==> Normalize(x) == ts[0] || Normalize(x) in ts[1..];
  }

  /** Standardising with the converter's table: a header is renamed to its normalised
      form exactly when that form is a target name and the header is the one the
      normalised-name dictionary kept; every other header keeps its label. */
  lemma StandardizeColumnsSpec(h: seq<string>)
    ensures |StandardizeColumns(h)| == |h|
    ensures forall i :: 0 <= i < |h| ==>
              StandardizeColumns(h)[i]
                == if Normalize(h[i]) in Targets && Index(h)[Normalize(h[i])] == h[i]
                   then Normalize(h[i]) else h[i]
  {
    AliasDuplicatesHaveNoEffect(h, Aliases);
    AliasesAreSelfAliases();
    SelfAliasRenameMap(Targets, Index(h), map[]);
    var m := RenameMapFrom(SelfAliases(Targets), Index(h), map[]);
    assert forall i :: 0 <= i < |h| ==> (h[i] in m <==> Chosen(Targets, Index(h), h[i]));
  }

  /** A header whose normalised form is a target, and which no later header shares
      that form with, is renamed to the target (`Counting Site ID` becomes
      `counting_site_id`). */
  lemma RenamesToTarget(h: seq<string>, i: nat)
    requires i < |h| && Normalize(h[i]) in Targets && LastWithKey(h, i)
    ensures StandardizeColumns(h)[i] == Normalize(h[i])
  {
    StandardizeColumnsSpec(h);
  }

  /** A header whose normalised form is no target keeps its label and its position;
      the number of columns never changes. */
  lemma KeepsOtherHeaders(h: seq<string>, i: nat)
    requires i < |h| && Normalize(h[i]) !in Targets
    ensures |StandardizeColumns(h)| == |h|
    ensures StandardizeColumns(h)[i] == h[i]
  {
    StandardizeColumnsSpec(h);
  }

  /** The rightmost header at or after `i` with the same normalised form as `h[i]`. */
  ghost function LastSameKey(h: seq<string>, i: nat): (j: nat)
    requires i < |h|
    ensures i <= j < |h| && Normalize(h[j]) == Normalize(h[i]) && LastWithKey(h, j)
    decreases |h| - i
  {
    if exists j :: i < j < |h| && Normalize(h[j]) == Normalize(h[i]) then
      var j :| i < j < |h| && Normalize(h[j]) == Normalize(h[i]);
      LastSameKey(h, j)
    else i
  }

  /** Of two distinct headers with the same normalised form, the earlier one is not
      renamed: the dictionary comprehension kept the later one. */
  lemma OnlyRightmostRenamed(h: seq<string>, i: nat, j: nat)
    requires Distinct(h)
    requires i < j < |h| && Normalize(h[i]) == Normalize(h[j])
    ensures StandardizeColumns(h)[i] == h[i]
  {
    StandardizeColumnsSpec(h);
    var last := LastSameKey(h, j);
    assert Index(h)[Normalize(h[i])] == h[last];
  }

  predicate SnakeCase(s: string) {
    forall k :: 0 <= k < |s| ==> ('a' <= s[k] <= 'z') || s[k] == '_'
  }

  lemma SnakeCaseNormalized(s: string)
    requires SnakeCase(s)
    ensures Normalize(s) == s
  {
    NormalizeFixedPoints(s);
  }

  /** The target names are already in normalised form. */
  lemma TargetNormalized(t: string)
    requires t in Targets
    ensures Normalize(t) == t
  {
    if t == CountingSiteId {
      assert SnakeCase(t);
    } else if t == CountingSiteName {
      assert SnakeCase(t);
    } else if t == EastCoordinate {
      assert SnakeCase(t);
    } else {
      assert SnakeCase(t);
    }
    SnakeCaseNormalized(t);
  }

  /** After standardisation a target name labels some column exactly when some
      original header normalises to it. */
  lemma TargetPresentIff(h: seq<string>, t: string)
    requires t in Targets
    ensures t in StandardizeColumns(h) <==> exists i :: 0 <= i < |h| && Normalize(h[i]) == t
  {
    if t in StandardizeColumns(h) {
      TargetFromHeader(h, t);
    }
    if exists i :: 0 <= i < |h| && Normalize(h[i]) == t {
      var i :| 0 <= i < |h| && Normalize(h[i]) == t;
      TargetFromKeptHeader(h, t, i);
    }
  }

  lemma TargetFromHeader(h: seq<string>, t: string)
    requires t in Targets && t in StandardizeColumns(h)
    ensures exists i :: 0 <= i < |h| && Normalize(h[i]) == t
  {
    var out := StandardizeColumns(h);
    var p :| 0 <= p < |out| && out[p] == t;
    StandardizeColumnsSpec(h);
    if Normalize(h[p]) in Targets && Index(h)[Normalize(h[p])] == h[p] {
      assert Normalize(h[p]) == out[p];
    } else {
      assert h[p] == t;
      TargetNormalized(t);
    }
    assert Normalize(h[p]) == t;
  }

  lemma TargetFromKeptHeader(h: seq<string>, t: string, i: nat)
    requires t in Targets && i < |h| && Normalize(h[i]) == t
    ensures t in StandardizeColumns(h)
  {
    StandardizeColumnsSpec(h);
    var x := Index(h)[t];
    assert x in h && Normalize(x) == t;
    var p :| 0 <= p < |h| && h[p] == x;
    assert StandardizeColumns(h)[p] == t;
  }
}

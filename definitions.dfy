/** The `Definitions` registry of fstutils.py: named regex sets ("V" for
    "[a|e|i|o|u]") whose names may be used inside other sets and inside regex
    strings.  The Python dictionary is a sequence of (name, expansion) entries
    with distinct names, so that its iteration order is explicit. */
module SetDefinitions {
  import opened StrReplace
  import opened Wrappers

  /** One dictionary item: a set name and its regex expansion. */
  type Entry = (string, string)

  /** Dictionary keys are distinct. */
  predicate DistinctNames(d: seq<Entry>)
  {
    forall a, b :: 0 <= a < b < |d| ==> d[a].0 != d[b].0
  }

  /** Two tables hold the same names in the same order. */
  predicate SameNames(d: seq<Entry>, e: seq<Entry>)
  {
    |d| == |e| && forall k :: 0 <= k < |d| ==> d[k].0 == e[k].0
  }

  /** Substituting entry `b` into the expansion of entry `a` leaves it unchanged. */
  predicate Stable(d: seq<Entry>, a: nat, b: nat)
    requires a < |d| && b < |d|
  {
    ReplaceAll(d[a].1, d[b].0, d[b].1) == d[a].1
  }

  /** No other entry can be substituted into entry `a` any more: the condition on
      which the resolver's `while replaced` loop for `a` stops. */
  predicate Settled(d: seq<Entry>, a: nat)
    requires a < |d|
  {
    forall b :: 0 <= b < |d| && b != a ==> Stable(d, a, b)
  }

  /** The expansion of entry `a` mentions no other entry's name. */
  predicate MentionsNoOtherName(d: seq<Entry>, a: nat)
    requires a < |d|
  {
    forall b :: 0 <= b < |d| && b != a ==> !Occurs(d[b].0, d[a].1)
  }

  /** No name occurs inside another name (so "V" and "Vlong" may not both be defined). */
  predicate NamesIndependent(d: seq<Entry>)
  {
    forall a, b :: 0 <= a < |d| && 0 <= b < |d| && a != b ==> !Occurs(d[a].0, d[b].0)
  }

  /** What holds after the first `i` entries have been processed: an entry `a`
      already processed is stable with respect to every entry processed before it
      and every entry not yet processed, and, when names are independent, with
      respect to every other entry. */
  predicate ResolvedUpTo(d: seq<Entry>, i: nat, independent: bool)
  {
    forall a, b :: 0 <= a < i && a < |d| && 0 <= b < |d| && a != b && (b < a || b >= i || independent) ==>
      Stable(d, a, b)
  }

  /** An expansion that mentions no other name is already settled. */
  lemma {:induction false} UnmentionedIsSettled(d: seq<Entry>, a: nat)
    requires a < |d| && MentionsNoOtherName(d, a)
    ensures Settled(d, a)
  {
    forall b | 0 <= b < |d| && b != a
      ensures Stable(d, a, b)
    {
      ReplaceAllAbsent(d[a].1, d[b].0, d[b].1);
    }
  }

  /** With independent names, an entry whose expansion is its own name is settled. */
  lemma {:induction false} SelfNamedIsSettled(d: seq<Entry>, a: nat)
    requires a < |d| && NamesIndependent(d) && d[a].1 == d[a].0
    ensures Settled(d, a)
  {
    forall b | 0 <= b < |d| && b != a
      ensures Stable(d, a, b)
    {
      ReplaceAllAbsent(d[a].1, d[b].0, d[b].1);
    }
  }

  /** Processing entry `i` (which rewrites only `d[i]`, and only when it was not
      settled to begin with) keeps everything already established and adds entry `i`. */
  lemma {:induction false} SettleStep(start: seq<Entry>, d: seq<Entry>, i: nat)
    requires i < |start| && SameNames(start, d)
    requires forall k :: 0 <= k < |d| && k != i ==> d[k] == start[k]
    requires start[i].1 != d[i].1 ==> !Settled(start, i)
    requires Settled(d, i)
    requires ResolvedUpTo(start, i, NamesIndependent(start))
    ensures ResolvedUpTo(d, i + 1, NamesIndependent(start))
  {
    var independent := NamesIndependent(start);
    forall a, b | 0 <= a < i + 1 && 0 <= b < |d| && a != b && (b < a || b >= i + 1 || independent)
      ensures Stable(d, a, b)
    {
      if a == i {
        assert Stable(d, i, b);
      } else if b != i {
        assert Stable(start, a, b);
      } else {
        // a < i and b == i, so the names are independent
        assert Stable(start, a, i);
        if d[i].1 != start[i].1 {
          if start[i].1 == start[i].0 {
            SelfNamedIsSettled(start, i);
          }
          ReplaceAllUnchanged(start[a].1, start[i].0, start[i].1);
          ReplaceAllAbsent(d[a].1, d[i].0, d[i].1);
        }
      }
    }
  }

  /** The first entry, from `j` on, whose substitution changes the expansion of
      entry `i`: the entry at which the inner `for` loop breaks, if any. */
  function FirstChange(d: seq<Entry>, i: nat, j: nat): (r: Option<nat>)
    requires i < |d|
    ensures r.Some? ==> j <= r.value < |d| && d[r.value].0 != d[i].0 && !Stable(d, i, r.value)
    ensures r.Some? ==> forall c :: j <= c < r.value && d[c].0 != d[i].0 ==> Stable(d, i, c)
    ensures r.None? ==> forall c :: j <= c < |d| && d[c].0 != d[i].0 ==> Stable(d, i, c)
    decreases |d| - j
  {
    if j >= |d| then None
    else if d[j].0 != d[i].0 && !Stable(d, i, j) then Some(j)
    else FirstChange(d, i, j + 1)
  }

  /** What the `while replaced` loop for entry `i` does with `budget` scans: the
      table it ends with and the scans left, or `None` when the budget runs out.
      Only entry `i` is ever rewritten, each time by substituting one other
      entry into it. */
  function Settling(d: seq<Entry>, i: nat, budget: nat): (r: (Option<seq<Entry>>, nat))
    requires i < |d|
    ensures r.0.None? ==> r.1 == 0
    ensures r.0.Some? ==> r.1 < budget && SameNames(d, r.0.value)
    decreases budget
  {
    if budget == 0 then (None, 0)
    else
      match FirstChange(d, i, 0)
      case None => (Some(d), budget - 1)
      case Some(j) => Settling(d[i := (d[i].0, ReplaceAll(d[i].1, d[j].0, d[j].1))], i, budget - 1)
  }

  /** What the outer `for` loop does from entry `i` on: each entry in turn is
      settled, the scans left over passing to the next. */
  function ResolvingFrom(d: seq<Entry>, i: nat, budget: nat): (r: Option<seq<Entry>>)
    requires i <= |d|
    ensures r.Some? ==> SameNames(d, r.value)
    decreases |d| - i
  {
    if i == |d| then Some(d)
    else
      var (next, rest) := Settling(d, i, budget);
      if next.None? then None else ResolvingFrom(next.value, i + 1, rest)
  }

  /** The table `Definitions.__init__` leaves behind, given `fuel` scans. */
  function Resolution(d: seq<Entry>, fuel: nat): (r: Option<seq<Entry>>)
    ensures r.Some? ==> SameNames(d, r.value)
  {
    ResolvingFrom(d, 0, fuel)
  }

  /** A budget large enough for the `while replaced` loop stays large enough:
      the extra scans are simply left over. */
  lemma {:induction false} SettlingMoreFuel(d: seq<Entry>, i: nat, budget: nat, more: nat)
    requires i < |d| && budget <= more && Settling(d, i, budget).0.Some?
    ensures Settling(d, i, more) == (Settling(d, i, budget).0, Settling(d, i, budget).1 + (more - budget))
    decreases budget
  {
    match FirstChange(d, i, 0)
    case None =>
    case Some(j) =>
      SettlingMoreFuel(d[i := (d[i].0, ReplaceAll(d[i].1, d[j].0, d[j].1))], i, budget - 1, more - 1);
  }

  /** More fuel never changes a resolution that was reached: the result does not
      depend on the budget once the budget suffices. */
  lemma {:induction false} ResolvingMoreFuel(d: seq<Entry>, i: nat, budget: nat, more: nat)
    requires i <= |d| && budget <= more && ResolvingFrom(d, i, budget).Some?
    ensures ResolvingFrom(d, i, more) == ResolvingFrom(d, i, budget)
    decreases |d| - i
  {
    if i < |d| {
      var (next, rest) := Settling(d, i, budget);
      SettlingMoreFuel(d, i, budget, more);
      ResolvingMoreFuel(next.value, i + 1, rest, rest + (more - budget));
    }
  }

  /** One pass of the inner `for fstname2, regex2` loop for entry `i`: it finds
      the first other entry whose substitution changes the expansion of `i`, or
      reports that there is none. */
  method Scan(d: seq<Entry>, i: nat) returns (replaced: bool, j: nat, result: string)
    requires i < |d|
    ensures replaced ==> j < |d| && d[j].0 != d[i].0
    ensures replaced ==> result == ReplaceAll(d[i].1, d[j].0, d[j].1) && result != d[i].1
    ensures replaced ==> forall c :: 0 <= c < j && d[c].0 != d[i].0 ==> Stable(d, i, c)
    ensures !replaced ==> forall c :: 0 <= c < |d| && d[c].0 != d[i].0 ==> Stable(d, i, c)
    ensures replaced == FirstChange(d, i, 0).Some?
    ensures replaced ==> j == FirstChange(d, i, 0).value
  {
    j := 0;
    while j < |d|
      invariant 0 <= j <= |d|
      invariant forall c :: 0 <= c < j && d[c].0 != d[i].0 ==> Stable(d, i, c)
      invariant FirstChange(d, i, j) == FirstChange(d, i, 0)
    {
      if d[i].0 != d[j].0 {
        result := ReplaceAll(d[i].1, d[j].0, d[j].1);
        if result != d[i].1 {
          return true, j, result;
        }
      }
      j := j + 1;
    }
    return false, 0, d[i].1;
  }

  /** The `while replaced` loop for entry `i` rewrites no other entry. */
  lemma {:induction false} SettlingFrame(d: seq<Entry>, i: nat, budget: nat)
    requires i < |d|
    ensures Settling(d, i, budget).0.Some? ==>
      forall k :: 0 <= k < |d| && k != i ==> Settling(d, i, budget).0.value[k] == d[k]
    decreases budget
  {
    if budget > 0 {
      match FirstChange(d, i, 0)
      case None =>
      case Some(j) =>
        SettlingFrame(d[i := (d[i].0, ReplaceAll(d[i].1, d[j].0, d[j].1))], i, budget - 1);
    }
  }

  /** Every table the `while replaced` loop can end with has entry `i` settled,
      and an entry that is settled to begin with is left as it is at the cost of
      one scan. */
  lemma {:induction false} SettlingSettles(d: seq<Entry>, i: nat, budget: nat)
    requires i < |d| && DistinctNames(d)
    ensures Settling(d, i, budget).0.Some? ==> Settled(Settling(d, i, budget).0.value, i)
    ensures Settled(d, i) && budget > 0 ==> Settling(d, i, budget) == (Some(d), budget - 1)
    decreases budget
  {
    if budget > 0 {
      match FirstChange(d, i, 0)
      case None =>
        forall b | 0 <= b < |d| && b != i
          ensures Stable(d, i, b)
        {
          assert d[b].0 != d[i].0;
        }
      case Some(j) =>
        var e := d[i := (d[i].0, ReplaceAll(d[i].1, d[j].0, d[j].1))];
        assert forall k :: 0 <= k < |e| ==> e[k].0 == d[k].0;
        SettlingSettles(e, i, budget - 1);
    }
  }

  /** The `while replaced` loop for entry `i`: scan, substitute, rescan, until a
      scan finds nothing.  Each scan costs one unit of `budget`; running out
      yields `None`. */
  method SettleEntry(d: seq<Entry>, i: nat, budget: nat) returns (r: Option<seq<Entry>>, rest: nat)
    requires i < |d| && DistinctNames(d)
    ensures (r, rest) == Settling(d, i, budget)
    ensures rest <= budget
    ensures r.Some? ==> SameNames(d, r.value) && Settled(r.value, i)
    ensures r.Some? ==> forall k :: 0 <= k < |d| && k != i ==> r.value[k] == d[k]
    ensures r.Some? && Settled(d, i) ==> r.value == d
    ensures Settled(d, i) && budget > 0 ==> r == Some(d) && rest == budget - 1
  {
    var cur := d;
    rest := budget;
    var replaced := true;
    while replaced
      invariant |cur| == |d|
      invariant Settling(d, i, budget) == if replaced then Settling(cur, i, rest) else (Some(cur), rest)
      decreases rest, replaced
    {
      if rest == 0 {
        r := None;
        SettlingSettles(d, i, budget);
        return;
      }
      rest := rest - 1;
      var j, result;
      replaced, j, result := Scan(cur, i);
      if replaced {
        cur := cur[i := (cur[i].0, result)];
      }
    }
    r := Some(cur);
    SettlingSettles(d, i, budget);
    SettlingFrame(d, i, budget);
  }

  /** Whether names are distinct or independent depends only on the names. */
  lemma {:induction false} SameNamesAgree(d: seq<Entry>, e: seq<Entry>)
    requires SameNames(d, e)
    ensures DistinctNames(d) == DistinctNames(e)
    ensures NamesIndependent(d) == NamesIndependent(e)
  {
    assert forall k :: 0 <= k < |e| ==> e[k].0 == d[k].0;
  }

  /** One round of the outer loop resolves one more entry. */
  lemma {:induction false} SettlingResolvesOneMore(d: seq<Entry>, i: nat, budget: nat)
    requires i < |d| && DistinctNames(d) && ResolvedUpTo(d, i, NamesIndependent(d))
    requires Settling(d, i, budget).0.Some?
    ensures ResolvedUpTo(Settling(d, i, budget).0.value, i + 1, NamesIndependent(d))
  {
    SettlingSettles(d, i, budget);
    SettlingFrame(d, i, budget);
    SettleStep(d, Settling(d, i, budget).0.value, i);
  }

  /** Once the outer loop has reached entry `i` with the entries before it
      resolved, whatever table it ends with is resolved throughout. */
  lemma {:induction false} ResolvingFromResolves(d: seq<Entry>, i: nat, budget: nat)
    requires i <= |d| && DistinctNames(d) && ResolvedUpTo(d, i, NamesIndependent(d))
    ensures ResolvingFrom(d, i, budget).Some? ==>
      ResolvedUpTo(ResolvingFrom(d, i, budget).value, |d|, NamesIndependent(d))
    decreases |d| - i
  {
    if i == |d| {
      assert ResolvingFrom(d, i, budget) == Some(d);
    } else {
      var r := Settling(d, i, budget);
      if r.0.Some? {
        SettlingResolvesOneMore(d, i, budget);
        SameNamesAgree(d, r.0.value);
        ResolvingFromResolves(r.0.value, i + 1, r.1);
        assert ResolvingFrom(d, i, budget) == ResolvingFrom(r.0.value, i + 1, r.1);
      } else {
        assert ResolvingFrom(d, i, budget) == None;
      }
    }
  }

  /** The outer loop never rewrites an entry whose expansion mentions no other
      name. */
  lemma {:induction false} ResolvingFromKeeps(d: seq<Entry>, i: nat, budget: nat, k: nat)
    requires i <= |d| && k < |d| && DistinctNames(d) && MentionsNoOtherName(d, k)
    ensures ResolvingFrom(d, i, budget).Some? ==> ResolvingFrom(d, i, budget).value[k] == d[k]
    decreases |d| - i
  {
    if i == |d| {
      assert ResolvingFrom(d, i, budget) == Some(d);
    } else {
      var r := Settling(d, i, budget);
      if r.0.Some? {
        var e := r.0.value;
        SettlingSettles(d, i, budget);
        SettlingFrame(d, i, budget);
        if i == k {
          UnmentionedIsSettled(d, k);
        }
        SameNamesAgree(d, e);
        assert e[k] == d[k];
        assert forall b :: 0 <= b < |e| ==> e[b].0 == d[b].0;
        assert MentionsNoOtherName(e, k);
        ResolvingFromKeeps(e, i + 1, r.1, k);
        assert ResolvingFrom(d, i, budget) == ResolvingFrom(e, i + 1, r.1);
      } else {
        assert ResolvingFrom(d, i, budget) == None;
      }
    }
  }

  /** A table whose remaining entries are all settled comes back unchanged when
      the budget allows one scan per entry. */
  lemma {:induction false} ResolvingFromSettled(d: seq<Entry>, i: nat, budget: nat)
    requires i <= |d| && DistinctNames(d) && budget >= |d| - i
    requires forall a :: i <= a < |d| ==> Settled(d, a)
    ensures ResolvingFrom(d, i, budget) == Some(d)
    decreases |d| - i
  {
    if i < |d| {
      SettlingSettles(d, i, budget);
      ResolvingFromSettled(d, i + 1, budget - 1);
    }
  }

  /** The table the constructor leaves behind is resolved: every entry is
      stable with respect to every earlier entry and, when names are
      independent, with respect to every other entry. */
  lemma ResolutionResolves(d: seq<Entry>, fuel: nat)
    requires DistinctNames(d)
    ensures Resolution(d, fuel).Some? ==> forall a, b :: 0 <= b < a < |d| ==>
      Stable(Resolution(d, fuel).value, a, b)
    ensures Resolution(d, fuel).Some? && NamesIndependent(d) ==>
      forall a, b :: 0 <= a < |d| && 0 <= b < |d| && a != b ==> Stable(Resolution(d, fuel).value, a, b)
  {
    ResolvingFromResolves(d, 0, fuel);
  }

  /** The constructor keeps every expansion that mentions no other name. */
  lemma ResolutionKeeps(d: seq<Entry>, fuel: nat)
    requires DistinctNames(d)
    ensures Resolution(d, fuel).Some? ==> forall a :: 0 <= a < |d| && MentionsNoOtherName(d, a) ==>
      Resolution(d, fuel).value[a] == d[a]
  {
    forall a | 0 <= a < |d| && MentionsNoOtherName(d, a)
      ensures Resolution(d, fuel).Some? ==> Resolution(d, fuel).value[a] == d[a]
    {
      ResolvingFromKeeps(d, 0, fuel, a);
    }
  }

  /** A table already resolved comes back unchanged, given one scan per entry. */
  lemma ResolutionOfSettled(d: seq<Entry>, fuel: nat)
    requires DistinctNames(d) && fuel >= |d|
    requires forall a :: 0 <= a < |d| ==> Settled(d, a)
    ensures Resolution(d, fuel) == Some(d)
  {
    ResolvingFromSettled(d, 0, fuel);
  }

  /** The constructor `Definitions.__init__`: every entry, in table order, is
      settled by substituting the other entries into it.  On some cyclic
      definitions the Python loop never ends (`ResolveGrowingNames`), while
      others resolve (`ResolveSwappedNames`); here every scan costs one unit of
      `fuel` and running out yields `None`, so the contract is one of partial
      correctness. */
  method Resolve(definitions: seq<Entry>, fuel: nat) returns (r: Option<seq<Entry>>)
    requires DistinctNames(definitions)
    ensures r == Resolution(definitions, fuel)
    ensures r.Some? ==> SameNames(definitions, r.value)
    ensures r.Some? ==> forall a :: 0 <= a < |definitions| && MentionsNoOtherName(definitions, a) ==>
      r.value[a] == definitions[a]
    ensures r.Some? ==> forall a, b :: 0 <= b < a < |r.value| ==> Stable(r.value, a, b)
    ensures r.Some? && NamesIndependent(definitions) ==>
      forall a, b :: 0 <= a < |r.value| && 0 <= b < |r.value| && a != b ==> Stable(r.value, a, b)
    ensures fuel >= |definitions| && (forall a :: 0 <= a < |definitions| ==> Settled(definitions, a)) ==>
      r == Some(definitions)
  {
    var d := definitions;
    var budget: nat := fuel;
    var exhausted := false;
    var i := 0;
    while i < |d| && !exhausted
      invariant 0 <= i <= |d|
      invariant SameNames(definitions, d) && DistinctNames(d)
      invariant exhausted ==> Resolution(definitions, fuel).None?
      invariant !exhausted ==> ResolvingFrom(d, i, budget) == Resolution(definitions, fuel)
      decreases |d| - i, !exhausted
    {
      var next, rest := SettleEntry(d, i, budget);
      if next.None? {
        exhausted := true;
      } else {
        SameNamesAgree(d, next.value);
        assert ResolvingFrom(d, i, budget) == ResolvingFrom(next.value, i + 1, rest);
        d, budget, i := next.value, rest, i + 1;
      }
    }
    r := if exhausted then None else Some(d);
    ResolutionResolves(definitions, fuel);
    ResolutionKeeps(definitions, fuel);
    if fuel >= |definitions| && (forall a :: 0 <= a < |definitions| ==> Settled(definitions, a)) {
      ResolutionOfSettled(definitions, fuel);
    }
  }

  /** A pair left stable by the resolver: the expansion of `a` contains the name
      of `b` only when `b` is defined as its own name. */
  lemma {:induction false} StableMeansNameAbsent(d: seq<Entry>, a: nat, b: nat)
    requires a < |d| && b < |d| && Stable(d, a, b)
    ensures !Occurs(d[b].0, d[a].1) || d[b].1 == d[b].0
  {
    ReplaceAllUnchanged(d[a].1, d[b].0, d[b].1);
  }

  /** `Definitions.replace`: every name is substituted once, in table order. */
  function ApplyAll(d: seq<Entry>, s: string): string
    decreases |d|
  {
    if d == [] then s else ApplyAll(d[1..], ReplaceAll(s, d[0].0, d[0].1))
  }

  /** The loop of `Definitions.replace`, which reassigns the string once per entry. */
  method Replace(d: seq<Entry>, s: string) returns (r: string)
    ensures r == ApplyAll(d, s)
  {
    r := s;
    var i := 0;
    while i < |d|
      invariant 0 <= i <= |d|
      invariant ApplyAll(d[i..], r) == ApplyAll(d, s)
    {
      assert d[i..][1..] == d[i + 1..];
      r := ReplaceAll(r, d[i].0, d[i].1);
      i := i + 1;
    }
    assert d[i..] == [];
  }

  /** A string that mentions no defined name comes back unchanged. */
  lemma {:induction false} ApplyAllNoName(d: seq<Entry>, s: string)
    requires forall k :: 0 <= k < |d| ==> !Occurs(d[k].0, s)
    ensures ApplyAll(d, s) == s
    decreases |d|
  {
    if d != [] {
      ReplaceAllAbsent(s, d[0].0, d[0].1);
      ApplyAllNoName(d[1..], s);
    }
  }

  /** Entries after `a` that are stable in `a` leave its expansion alone. */
  lemma {:induction false} ApplyAllKeepsExpansion(d: seq<Entry>, k: nat, a: nat)
    requires a < k <= |d|
    requires forall b :: k <= b < |d| ==> Stable(d, a, b)
    ensures ApplyAll(d[k..], d[a].1) == d[a].1
    decreases |d| - k
  {
    if k < |d| {
      assert d[k..][1..] == d[k + 1..] && d[k..][0] == d[k];
      assert Stable(d, a, k);
      ApplyAllKeepsExpansion(d, k + 1, a);
    }
  }

  /** Entries before `a` cannot touch the name of `a` when names are independent;
      entry `a` then turns its name into its expansion. */
  lemma {:induction false} ApplyAllReachesName(d: seq<Entry>, k: nat, a: nat)
    requires k <= a < |d| && NamesIndependent(d)
    ensures ApplyAll(d[k..], d[a].0) == ApplyAll(d[a + 1..], d[a].1)
    decreases a - k
  {
    assert d[k..][1..] == d[k + 1..];
    if k < a {
      ReplaceAllAbsent(d[a].0, d[k].0, d[k].1);
      ApplyAllReachesName(d, k + 1, a);
    } else {
      ReplaceAllWhole(d[a].0, d[a].1);
    }
  }

  /** On a resolved table with independent names, replacing a lone set name
      yields that set's fully resolved expansion. */
  lemma {:induction false} ReplaceNameGivesExpansion(d: seq<Entry>, a: nat)
    requires a < |d| && NamesIndependent(d)
    requires forall b :: a < b < |d| ==> Stable(d, a, b)
    ensures ApplyAll(d, d[a].0) == d[a].1
  {
    ApplyAllReachesName(d, 0, a);
    ApplyAllKeepsExpansion(d, a + 1, a);
    assert d[0..] == d;
  }

  /** Replacement is not idempotent even on a resolved table with independent
      names: a later substitution can complete an earlier name. */
  lemma ReplaceNotIdempotent()
    ensures var d := [("ab", "c"), ("y", "b")];
      && NamesIndependent(d) && Stable(d, 0, 1) && Stable(d, 1, 0)
      && ApplyAll(d, "ay") == "ab" && ApplyAll(d, "ab") == "c"
  {
    var d := [("ab", "c"), ("y", "b")];
    AbsentFirstChar("ab", "y");
    AbsentFirstChar("y", "ab");
    AbsentFirstChar("c", "ab");
    AbsentFirstChar("b", "y");
    assert !Occurs("ab", "ay") by {
      assert "ay"[..2] != "ab";
      assert !Occurs("ab", "y");
    }
    AbsentFirstChar("c", "y");
    ReplaceAllAbsent("c", "y", "b");
    ReplaceAllAbsent("b", "ab", "c");
    ReplaceAllAbsent("ay", "ab", "c");
    assert ReplaceAll("ay", "y", "b") == "ab" by {
      assert ReplaceAll("y", "y", "b") == "b" by { ReplaceAllWhole("y", "b"); }
    }
    ReplaceAllWhole("ab", "c");
    ReplaceAllAbsent("c", "y", "b");
    assert d[1..][1..] == [];
  }

  /** A table in which the set `Seg` is written in terms of the sets `V` and `C`. */
  const SetsGiven: seq<Entry> := [("V", "[ae]"), ("C", "[bd]"), ("Seg", "V|C")]

  /** The same table with `V` and `C` inlined into `Seg`. */
  const SetsInlined: seq<Entry> := [("V", "[ae]"), ("C", "[bd]"), ("Seg", "[ae]|[bd]")]

  /** `V` and `C` mention no other name: each costs one scan and stays as given. */
  lemma SetsGivenLeaves()
    ensures Settling(SetsGiven, 0, 5) == (Some(SetsGiven), 4)
    ensures Settling(SetsGiven, 1, 4) == (Some(SetsGiven), 3)
  {
    var d0 := SetsGiven;
    AbsentFirstChar("[ae]", "C");
    AbsentFirstChar("[ae]", "Seg");
    AbsentFirstChar("[bd]", "V");
    AbsentFirstChar("[bd]", "Seg");
    ReplaceAllAbsent("[ae]", "C", "[bd]");
    ReplaceAllAbsent("[ae]", "Seg", "V|C");
    ReplaceAllAbsent("[bd]", "V", "[ae]");
    ReplaceAllAbsent("[bd]", "Seg", "V|C");
    assert FirstChange(d0, 0, 0) == None;
    assert FirstChange(d0, 1, 0) == None;
  }

  /** Once both names are inlined, `Seg` is settled. */
  lemma SetsInlinedSettled()
    ensures Settling(SetsInlined, 2, 1) == (Some(SetsInlined), 0)
  {
    AbsentFirstChar("[ae]|[bd]", "V");
    AbsentFirstChar("[ae]|[bd]", "C");
    ReplaceAllAbsent("[ae]|[bd]", "V", "[ae]");
    ReplaceAllAbsent("[ae]|[bd]", "C", "[bd]");
    assert FirstChange(SetsInlined, 2, 0) == None;
  }

  /** The table after `V` has been substituted into `Seg`. */
  const SetsHalfway: seq<Entry> := [("V", "[ae]"), ("C", "[bd]"), ("Seg", "[ae]|C")]

  /** `Seg` first takes in `V`. */
  lemma SetsGivenSeg()
    ensures Settling(SetsGiven, 2, 3) == Settling(SetsHalfway, 2, 2)
  {
    var d0 := SetsGiven;
    ReplaceAllJoin("", "|C", "V", "[ae]");
    assert "" + "V" + "|C" == "V|C" && "" + "[ae]" + "|C" == "[ae]|C";
    assert FirstChange(d0, 2, 0) == Some(0);
    assert d0[2 := (d0[2].0, ReplaceAll(d0[2].1, d0[0].0, d0[0].1))] == SetsHalfway;
  }

  /** `Seg` then takes in `C`. */
  lemma SetsHalfwaySeg()
    ensures Settling(SetsHalfway, 2, 2) == Settling(SetsInlined, 2, 1)
  {
    var d1 := SetsHalfway;
    AbsentFirstChar("[ae]|C", "V");
    ReplaceAllAbsent("[ae]|C", "V", "[ae]");
    ReplaceAllJoin("[ae]|", "", "C", "[bd]");
    assert "[ae]|" + "C" + "" == "[ae]|C" && "[ae]|" + "[bd]" + "" == "[ae]|[bd]";
    assert FirstChange(d1, 2, 0) == Some(1);
    assert d1[2 := (d1[2].0, ReplaceAll(d1[2].1, d1[1].0, d1[1].1))] == SetsInlined;
  }

  /** Set names inside another set are inlined: with `V` and `C` defined, the
      set `Seg = V|C` resolves to the union of their expansions, and five scans
      suffice. */
  lemma ResolveInlinesSets()
    ensures Resolution(SetsGiven, 5) == Some(SetsInlined)
  {
    SetsGivenLeaves();
    SetsGivenSeg();
    SetsHalfwaySeg();
    SetsInlinedSettled();
    assert ResolvingFrom(SetsInlined, 3, 0) == Some(SetsInlined);
    assert ResolvingFrom(SetsGiven, 2, 3) == Some(SetsInlined);
    assert ResolvingFrom(SetsGiven, 1, 4) == Some(SetsInlined);
  }

  /** A table in which the name `b` occurs inside the names `ab` and `aab`. */
  const OverlapGiven: seq<Entry> := [("aab", ""), ("b", "ab"), ("ab", "ab")]

  /** The same table after `b` has been substituted into `ab`. */
  const OverlapHalfway: seq<Entry> := [("aab", ""), ("b", "ab"), ("ab", "aab")]

  /** The table the constructor leaves behind. */
  const OverlapResolved: seq<Entry> := [("aab", ""), ("b", "ab"), ("ab", "")]

  /** `aab` and `b` are settled as given: `b`'s expansion `ab` is, at that point,
      the expansion of `ab` itself. */
  lemma OverlapGivenLeaves()
    ensures Settling(OverlapGiven, 0, 5) == (Some(OverlapGiven), 4)
    ensures Settling(OverlapGiven, 1, 4) == (Some(OverlapGiven), 3)
  {
    ReplaceAllWhole("ab", "ab");
    assert FirstChange(OverlapGiven, 0, 0) == None;
    assert FirstChange(OverlapGiven, 1, 0) == None;
  }

  /** `ab` takes in `b`, becoming `aab`. */
  lemma OverlapGivenLast()
    ensures Settling(OverlapGiven, 2, 3) == Settling(OverlapHalfway, 2, 2)
  {
    var d0 := OverlapGiven;
    assert ReplaceAll("ab", "b", "ab") == "aab" by {
      assert "ab"[..1] != "b";
      assert "ab"[1..] == "b";
      ReplaceAllWhole("b", "ab");
    }
    assert FirstChange(d0, 2, 0) == Some(1);
    assert d0[2 := (d0[2].0, ReplaceAll(d0[2].1, d0[1].0, d0[1].1))] == OverlapHalfway;
  }

  /** `ab` then takes in `aab`, becoming empty, and is settled. */
  lemma OverlapHalfwayLast()
    ensures Settling(OverlapHalfway, 2, 2) == (Some(OverlapResolved), 0)
  {
    var d1 := OverlapHalfway;
    ReplaceAllWhole("aab", "");
    assert FirstChange(d1, 2, 0) == Some(0);
    assert d1[2 := (d1[2].0, ReplaceAll(d1[2].1, d1[0].0, d1[0].1))] == OverlapResolved;
    assert FirstChange(OverlapResolved, 2, 0) == None;
  }

  /** Without independent names the resolved table need not be a fixed point:
      here the constructor returns, yet substituting `ab` into the expansion of
      `b` would still change it. */
  lemma ResolveOverlappingNames()
    ensures !NamesIndependent(OverlapGiven)
    ensures Resolution(OverlapGiven, 5) == Some(OverlapResolved)
    ensures !Stable(OverlapResolved, 1, 2)
  {
    assert OverlapGiven[1].0 == "b" && OverlapGiven[2].0 == "ab";
    assert Occurs("b", "ab") by {
      assert "ab"[1..] == "b";
    }
    OverlapGivenLeaves();
    OverlapGivenLast();
    OverlapHalfwayLast();
    assert ResolvingFrom(OverlapResolved, 3, 0) == Some(OverlapResolved);
    assert ResolvingFrom(OverlapGiven, 2, 3) == Some(OverlapResolved);
    assert ResolvingFrom(OverlapGiven, 1, 4) == Some(OverlapResolved);
    ReplaceAllWhole("ab", "");
  }

  /** Two sets defined as each other's names. */
  const SwappedGiven: seq<Entry> := [("A", "B"), ("B", "A")]

  /** What the constructor makes of them. */
  const SwappedResolved: seq<Entry> := [("A", "A"), ("B", "A")]

  /** Cyclic definitions can still let the constructor return: `A` takes in
      `B` and becomes `"A"`, after which substituting `A` into `B` changes
      nothing. */
  lemma ResolveSwappedNames()
    ensures Resolution(SwappedGiven, 4) == Some(SwappedResolved)
  {
    var d := SwappedGiven;
    ReplaceAllWhole("B", "A");
    ReplaceAllWhole("A", "A");
    assert FirstChange(d, 0, 0) == Some(1);
    assert d[0 := (d[0].0, ReplaceAll(d[0].1, d[1].0, d[1].1))] == SwappedResolved;
    assert ReplaceAll("A", "B", "A") == "A";
    assert FirstChange(SwappedResolved, 0, 0) == None;
    assert FirstChange(SwappedResolved, 1, 0) == None;
    assert Settling(SwappedGiven, 0, 4) == (Some(SwappedResolved), 2);
    assert Settling(SwappedResolved, 1, 2) == (Some(SwappedResolved), 1);
  }

  /** Two sets whose expansions each mention the other's name. */
  const GrowingGiven: seq<Entry> := [("A", "xB"), ("B", "yA")]

  /** The table once `A` is settled as `"xyA"`, with `B` expanded to `s + "A"`. */
  function GrowingTable(s: string): seq<Entry>
  {
    [("A", "xyA"), ("B", s + "A")]
  }

  /** Every scan of `B` substitutes `A` once more, so `B` grows by `"xy"` and
      the `while replaced` loop for it never stops. */
  lemma {:induction false} GrowingNeverSettles(s: string, budget: nat)
    requires 'A' !in s
    ensures Settling(GrowingTable(s), 1, budget).0.None?
    decreases budget
  {
    if budget > 0 {
      var d := GrowingTable(s);
      ReplaceAllJoin(s, "", "A", "xyA");
      assert s + "A" + "" == s + "A" && s + "xyA" + "" == (s + "xy") + "A";
      assert ReplaceAll(d[1].1, d[0].0, d[0].1) != d[1].1;
      assert FirstChange(d, 1, 0) == Some(0);
      assert d[1 := (d[1].0, ReplaceAll(d[1].1, d[0].0, d[0].1))] == GrowingTable(s + "xy");
      GrowingNeverSettles(s + "xy", budget - 1);
    }
  }

  /** Cyclic definitions can also keep the constructor running forever: for
      `{"A": "xB", "B": "yA"}` no budget of scans is enough. */
  lemma ResolveGrowingNames(fuel: nat)
    ensures Resolution(GrowingGiven, fuel) == None
  {
    var d := GrowingGiven;
    assert ReplaceAll("xB", "B", "yA") == "xyA" by {
      ReplaceAllJoin("x", "", "B", "yA");
      assert "x" + "B" + "" == "xB";
      assert "x" + "yA" + "" == "xyA";
    }
    assert FirstChange(d, 0, 0) == Some(1);
    var d1 := d[0 := (d[0].0, ReplaceAll(d[0].1, d[1].0, d[1].1))];
    assert d1 == GrowingTable("y") by {
      assert "y" + "A" == "yA";
    }
    if fuel >= 2 {
      ReplaceAllAbsent("xyA", "B", "yA");
      assert FirstChange(d1, 0, 0) == None;
      assert Settling(d, 0, fuel) == (Some(d1), fuel - 2);
      GrowingNeverSettles("y", fuel - 2);
    }
  }
}

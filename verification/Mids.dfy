/** Choosing identifiers for new media sections: decimal numbers from a 16-bit counter that are not yet in use. */
module Mids {

  import opened Words

  // ---------------------------------------------------------------------------------------------
  // Decimal numbers

  function Decimal(n: nat): (s: string)
    ensures |s| > 0
  {
    if n < 10 then ['0' + n as char] else Decimal(n / 10) + ['0' + (n % 10) as char]
  }

  function Value(s: string): int {
    if s == [] then 0 else Value(s[..|s| - 1]) * 10 + (s[|s| - 1] as int - '0' as int)
  }

  lemma {:induction false} DecimalIsInjective(n: nat)
    ensures Value(Decimal(n)) == n
  {
    if n >= 10 {
      DecimalIsInjective(n / 10);
      assert Decimal(n)[..|Decimal(n)| - 1] == Decimal(n / 10);
    }
  }

  ghost function Decimals(n: nat): set<string> {
    if n == 0 then {} else Decimals(n - 1) + {Decimal(n - 1)}
  }

  lemma {:induction false} DecimalsAre(n: nat)
    ensures |Decimals(n)| == n && forall s :: s in Decimals(n) ==> 0 <= Value(s) < n && Decimal(Value(s)) == s
  {
    hide Decimal, Value;
    if n > 0 {
      DecimalsAre(n - 1);
      DecimalIsInjective(n - 1);
    }
  }

  // ---------------------------------------------------------------------------------------------
  // The next free one

  /** The `tried` counter values before `counter` gave identifiers in use. */
  ghost predicate Tried(counter: U16, tried: nat, used: set<string>) {
    forall x: U16 :: (counter - 1 - x) % 0x1_0000 < tried ==> Decimal(x) in used
  }

  /** Fewer than 65536 identifiers in use: not every counter value can have been tried in vain. */
  lemma SomeAreFree(counter: U16, tried: nat, used: set<string>)
    requires |used| < 0x1_0000 && Tried(counter, tried, used)
    ensures tried < 0x1_0000
  {
    if tried >= 0x1_0000 {
      hide Decimal, Value, Decimals;
      var all := Decimals(0x1_0000);
      DecimalsAre(0x1_0000);
      forall s | s in all ensures s in used {
        assert (counter - 1 - Value(s)) % 0x1_0000 < tried;
      }
      Fits(all, used);
      assert false;
    }
  }

  lemma Fits(a: set<string>, b: set<string>)
    requires a <= b
    ensures |a| <= |b|
  {
    assert b == a + (b - a);
  }

  lemma NearModulo(d: int)
    requires -0x1_0000 <= d < 0x1_0000
    ensures d % 0x1_0000 == if d < 0 then d + 0x1_0000 else d
  {
  }

  lemma TryNext(counter: U16, tried: nat, used: set<string>)
    requires Tried(counter, tried, used) && Decimal(counter) in used && tried < 0x1_0000
    ensures Tried((counter + 1) % 0x1_0000, tried + 1, used)
  {
    hide Decimal;
    var next := if counter == 0xFFFF then 0 else counter + 1;
    forall x: U16 | (next - 1 - x) % 0x1_0000 < tried + 1 ensures Decimal(x) in used {
      NearModulo(next - 1 - x);
      if x != counter {
        NearModulo(counter - 1 - x);
        assert (counter - 1 - x) % 0x1_0000 == (next - 1 - x) % 0x1_0000 - 1;
      }
    }
  }

  function NextMid(counter: U16, used: set<string>, ghost tried: nat): (r: (string, U16))
    requires |used| < 0x1_0000 && Tried(counter, tried, used)
    ensures r.0 !in used && r.0 != ""
    decreases 0x1_0000 - tried
  {
    var next := (counter + 1) % 0x1_0000;
    if Decimal(counter) !in used then (Decimal(counter), next)
    else
      SomeAreFree(counter, tried, used);
      TryNext(counter, tried, used);
      NextMid(next, used, tried + 1)
  }

  /** The counter `j` steps on, wrapping after 65535. */
  function After(counter: U16, j: nat): U16 {
    (counter + j) % 0x1_0000
  }

  lemma AfterNext(counter: U16, j: nat)
    ensures After(counter, 0) == counter && After(After(counter, 1), j) == After(counter, j + 1)
  {
    LowSelf(counter);
    LowAdd(counter + 1, j);
  }

  /** The first free number from the counter on, and the counter left behind it. */
  lemma {:induction false} NextMidIsFirst(counter: U16, used: set<string>, tried: nat) returns (k: nat)
    requires |used| < 0x1_0000 && Tried(counter, tried, used)
    ensures var (mid, next) := NextMid(counter, used, tried);
            && mid == Decimal(After(counter, k)) && mid !in used && next == After(counter, k + 1)
            && forall j :: 0 <= j < k ==> Decimal(After(counter, j)) in used
    decreases 0x1_0000 - tried
  {
    SomeAreFree(counter, tried, used);
    AfterNext(counter, 0);
    assert After(counter, 1) == (counter + 1) % 0x1_0000;
    if Decimal(counter) !in used {
      k := 0;
    } else {
      TryNext(counter, tried, used);
      hide Decimal, Tried, After;
      var more := NextMidIsFirst(After(counter, 1), used, tried + 1);
      k := more + 1;
      AfterNext(counter, more);
      AfterNext(counter, more + 1);
      forall j | 0 <= j < k ensures Decimal(After(counter, j)) in used {
        if j > 0 {
          AfterNext(counter, j - 1);
        }
      }
    }
  }

  method ChooseMid(counter: U16, used: set<string>) returns (mid: string, next: U16)
    requires |used| < 0x1_0000
    ensures (mid, next) == NextMid(counter, used, 0)
  {
    next := counter;
    ghost var tried := 0;
    while true
      invariant Tried(next, tried, used) && NextMid(next, used, tried) == NextMid(counter, used, 0)
      decreases 0x1_0000 - tried
    {
      SomeAreFree(next, tried, used);
      mid := Decimal(next);
      if mid !in used {
        next := (next + 1) % 0x1_0000;
        return;
      }
      TryNext(next, tried, used);
      next := (next + 1) % 0x1_0000;
      tried := tried + 1;
    }
  }

  // ---------------------------------------------------------------------------------------------
  // Filling in a list

  function Missing(mids: seq<string>): nat {
    if mids == [] then 0 else Missing(mids[1..]) + if mids[0] == "" then 1 else 0
  }

  /** The mids of a list of sections once the missing ones are chosen in order, and the counter afterwards. */
  function Filled(mids: seq<string>, counter: U16, used: set<string>): (r: (seq<string>, U16))
    requires |used| + Missing(mids) <= 0x1_0000
    ensures |r.0| == |mids|
  {
    if mids == [] then ([], counter)
    else if mids[0] != "" then
      var r := Filled(mids[1..], counter, used);
      ([mids[0]] + r.0, r.1)
    else
      var (mid, next) := NextMid(counter, used, 0);
      var r := Filled(mids[1..], next, used + {mid});
      ([mid] + r.0, r.1)
  }

  predicate Distinct(mids: seq<string>) {
    forall i, j :: 0 <= i < j < |mids| && mids[i] != "" ==> mids[i] != mids[j]
  }

  /** Present mids stay, every section has one, and no two sections share one. */
  lemma {:induction false} FilledIsDistinct(mids: seq<string>, counter: U16, used: set<string>)
    requires |used| + Missing(mids) <= 0x1_0000 && Distinct(mids) && forall m :: m in mids && m != "" ==> m in used
    ensures var r := Filled(mids, counter, used).0;
            && Distinct(r) && "" !in r
            && forall i :: 0 <= i < |mids| ==> if mids[i] != "" then r[i] == mids[i] else r[i] !in used
  {
    if mids != [] {
      hide NextMid;
      var (mid, next) := if mids[0] != "" then (mids[0], counter) else NextMid(counter, used, 0);
      var r := Filled(mids, counter, used).0;
      if mids[0] != "" {
        assert used + {mid} == used;
      }
      FilledIsDistinct(mids[1..], next, used + {mid});
      var t := Filled(mids[1..], next, used + {mid}).0;
      assert r == [mid] + t;
      hide Filled, Missing;
      assert forall i :: 0 < i < |mids| ==> mids[1..][i - 1] == mids[i] && r[i] == t[i - 1];
      forall i | 0 < i < |mids| ensures r[i] != mid && r[i] != "" {
        assert t[i - 1] in t;
      }
      forall i | 0 <= i < |mids| ensures if mids[i] != "" then r[i] == mids[i] else r[i] !in used {
        assert i > 0 ==> mids[1..][i - 1] == mids[i];
      }
      forall i, j | 0 <= i < j < |r| ensures r[i] != r[j] {
        assert i > 0 ==> t[i - 1] != "" by {
          assert i > 0 ==> t[i - 1] in t;
        }
      }
    }
  }

  function Used(mids: seq<string>): set<string> {
    set m | m in mids && m != ""
  }

  lemma {:induction false} UsedAndMissing(mids: seq<string>)
    ensures |Used(mids)| + Missing(mids) <= |mids|
  {
    if mids != [] {
      UsedAndMissing(mids[1..]);
      assert mids == [mids[0]] + mids[1..];
      assert Used(mids) == Used(mids[1..]) + if mids[0] != "" then {mids[0]} else {};
    }
  }

  method CollectUsed(mids: seq<string>) returns (used: set<string>)
    ensures used == Used(mids)
  {
    used := {};
    var i := 0;
    while i < |mids|
      invariant 0 <= i <= |mids| && used == Used(mids[..i])
    {
      assert mids[..i + 1] == mids[..i] + [mids[i]];
      if mids[i] != "" {
        used := used + {mids[i]};
      }
      i := i + 1;
    }
    assert mids[..i] == mids;
  }

  /** The names so far, continued over the rest of the list, are all the names. */
  ghost predicate Continues(whole: (seq<string>, U16), mids: seq<string>, i: nat, names: seq<string>, next: U16, used: set<string>)
    requires i <= |mids|
  {
    |used| + Missing(mids[i..]) <= 0x1_0000
    && var rest := Filled(mids[i..], next, used);
    names + rest.0 == whole.0 && rest.1 == whole.1
  }

  lemma NameOne(whole: (seq<string>, U16), mids: seq<string>, i: nat, names: seq<string>, next: U16, used: set<string>)
    requires i < |mids| && Continues(whole, mids, i, names, next, used)
    ensures mids[i] != "" ==> Continues(whole, mids, i + 1, names + [mids[i]], next, used)
    ensures mids[i] == "" ==> |used| < 0x1_0000 && var (mid, after) := NextMid(next, used, 0);
                              Continues(whole, mids, i + 1, names + [mid], after, used + {mid})
  {
    hide NextMid;
    assert mids[i..][0] == mids[i] && mids[i..][1..] == mids[i + 1..];
    if mids[i] != "" {
      Assoc(names, [mids[i]], Filled(mids[i + 1..], next, used).0);
    } else {
      var (mid, after) := NextMid(next, used, 0);
      Assoc(names, [mid], Filled(mids[i + 1..], after, used + {mid}).0);
    }
  }

  method FillIn(mids: seq<string>, counter: U16) returns (names: seq<string>, next: U16)
    requires |mids| <= 0x1_0000
    ensures |Used(mids)| + Missing(mids) <= 0x1_0000 && (names, next) == Filled(mids, counter, Used(mids))
  {
    UsedAndMissing(mids);
    var used := CollectUsed(mids);
    ghost var whole := Filled(mids, counter, used);
    assert mids[0..] == mids;
    assert Continues(whole, mids, 0, [], counter, used);
    hide Filled, NextMid, Missing, Continues;
    var i := 0;
    names, next := [], counter;
    while i < |mids|
      invariant 0 <= i <= |mids| && Continues(whole, mids, i, names, next, used)
    {
      NameOne(whole, mids, i, names, next, used);
      var mid := mids[i];
      if mid == "" {
        mid, next := ChooseMid(next, used);
        used := used + {mid};
      }
      names := names + [mid];
      i := i + 1;
    }
    AllNamed(whole, mids, names, next, used);
  }

  lemma AllNamed(whole: (seq<string>, U16), mids: seq<string>, names: seq<string>, next: U16, used: set<string>)
    requires Continues(whole, mids, |mids|, names, next, used)
    ensures (names, next) == whole
  {
    FilledNothing(mids[|mids|..], next, used);
    assert names + [] == names;
    assert (whole.0, whole.1) == whole;
  }

  lemma FilledNothing(mids: seq<string>, counter: U16, used: set<string>)
    requires mids == [] && |used| + Missing(mids) <= 0x1_0000
    ensures Filled(mids, counter, used) == ([], counter)
  {
  }

  /** Mids already present are kept, even when they repeat. */
  lemma {:induction false} FilledKeeps(mids: seq<string>, counter: U16, used: set<string>, i: nat)
    requires |used| + Missing(mids) <= 0x1_0000 && i < |mids| && mids[i] != ""
    ensures Filled(mids, counter, used).0[i] == mids[i]
  {
    if i > 0 {
      if mids[0] != "" {
        FilledKeeps(mids[1..], counter, used, i - 1);
      } else {
        var (mid, next) := NextMid(counter, used, 0);
        FilledKeeps(mids[1..], next, used + {mid}, i - 1);
      }
    }
  }
}

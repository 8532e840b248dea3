/** Cluster chains in the file allocation table. */
module FatChain {
  import opened Prelude

  const FREE: nat := 0
  const END_MIN: nat := 0x0FFF_FFF8
  const END_MARK: nat := 0xFFFF_FFFF

  /** The table links cluster `s[i]` to its successor in `s`, the last one to an end mark. */
  predicate LinkOk(fat: seq<nat>, s: seq<nat>, i: nat)
    requires i < |s|
  {
    s[i] < |fat| && if i + 1 < |s| then fat[s[i]] == s[i + 1] < END_MIN else fat[s[i]] >= END_MIN
  }

  /** `s` is the chain of clusters from `s[0]` to an end mark. */
  ghost predicate IsChain(fat: seq<nat>, s: seq<nat>) {
    s != [] && forall i :: 0 <= i < |s| ==> LinkOk(fat, s, i)
  }

  // ── Walking ───────────────────────────────────────────────────────────────

  /** The walk from cluster `c`, given up after `fuel` clusters or outside the table. */
  function Walk(fat: seq<nat>, c: nat, fuel: nat): Option<seq<nat>>
    decreases fuel
  {
    if fuel == 0 || c >= |fat| then None
    else if fat[c] >= END_MIN then Some([c])
    else
      match Walk(fat, fat[c], fuel - 1)
      case None => None
      case Some(s) => Some([c] + s)
  }

  /** A chain ends with the first entry from 0x0FFFFFF8 on, and new chains end with 0xFFFFFFFF. */
  lemma {:induction false} EndMarks(fat: seq<nat>, c: nat, s: seq<nat>)
    requires c < |fat| && s != [] && forall i :: 0 <= i < |s| ==> s[i] < |fat|
    ensures Walk(fat, c, 1) == if fat[c] >= 0x0FFF_FFF8 then Some([c]) else None
    ensures Linked(fat, s, |s|)[s[|s| - 1]] == 0xFFFF_FFFF
  {
  }

  lemma {:induction false} WalkIsChain(fat: seq<nat>, c: nat, fuel: nat)
    ensures Walk(fat, c, fuel).Some? ==> IsChain(fat, Walk(fat, c, fuel).value) && Walk(fat, c, fuel).value[0] == c
    decreases fuel
  {
    if fuel > 0 && c < |fat| && fat[c] < END_MIN {
      WalkIsChain(fat, fat[c], fuel - 1);
      if Walk(fat, c, fuel).Some? {
        var t := Walk(fat, fat[c], fuel - 1).value;
        var s := [c] + t;
        forall i | 0 <= i < |s| ensures LinkOk(fat, s, i) {
          assert i > 0 ==> LinkOk(fat, t, i - 1);
        }
      }
    }
  }

  lemma {:induction false} ChainIsWalk(fat: seq<nat>, s: seq<nat>, fuel: nat)
    requires IsChain(fat, s) && |s| <= fuel
    ensures Walk(fat, s[0], fuel) == Some(s)
    decreases fuel
  {
    assert LinkOk(fat, s, 0);
    if |s| > 1 {
      ChainTail(fat, s, 1);
      ChainIsWalk(fat, s[1..], fuel - 1);
      assert [s[0]] + s[1..] == s;
    } else {
      assert s == [s[0]];
    }
  }

  lemma {:induction false} ChainTail(fat: seq<nat>, s: seq<nat>, k: nat)
    requires IsChain(fat, s) && k < |s|
    ensures IsChain(fat, s[k..])
  {
    var t := s[k..];
    forall i | 0 <= i < |t| ensures LinkOk(fat, t, i) {
      assert LinkOk(fat, s, k + i);
    }
  }

  /** A cluster has one chain. */
  lemma {:induction false} ChainUnique(fat: seq<nat>, s: seq<nat>, t: seq<nat>)
    requires IsChain(fat, s) && IsChain(fat, t) && s[0] == t[0]
    ensures s == t
  {
    var n := |s| + |t|;
    ChainIsWalk(fat, s, n);
    ChainIsWalk(fat, t, n);
  }

  /** A chain that ends meets no cluster twice. */
  lemma {:induction false} ChainDistinct(fat: seq<nat>, s: seq<nat>, i: nat, j: nat)
    requires IsChain(fat, s) && i < j < |s|
    ensures s[i] != s[j]
  {
    if s[i] == s[j] {
      ChainTail(fat, s, i);
      ChainTail(fat, s, j);
      ChainUnique(fat, s[i..], s[j..]);
    }
  }

  /** So many different clusters need a table of that length. */
  lemma {:induction false} Pigeonhole(s: seq<nat>, n: nat)
    requires forall i :: 0 <= i < |s| ==> s[i] < n
    requires forall i, j :: 0 <= i < j < |s| ==> s[i] != s[j]
    ensures |s| <= n
    decreases n
  {
    if s != [] {
      assert s[0] < n;
      if k :| 0 <= k < |s| && s[k] == n - 1 {
        var t := s[..k] + s[k + 1..];
        forall i | 0 <= i < |t| ensures t[i] < n - 1 {
          assert t[i] == s[if i < k then i else i + 1];
        }
        forall i, j | 0 <= i < j < |t| ensures t[i] != t[j] {
          assert t[i] == s[if i < k then i else i + 1] && t[j] == s[if j < k then j else j + 1];
        }
        Pigeonhole(t, n - 1);
      } else {
        Pigeonhole(s, n - 1);
      }
    }
  }

  /** The walk from `c` ends exactly if it ends within as many steps as the table is long. */
  lemma {:induction false} WalkEnds(fat: seq<nat>, c: nat)
    ensures (exists s :: IsChain(fat, s) && s[0] == c) <==> Walk(fat, c, |fat|).Some?
    ensures forall s :: IsChain(fat, s) && s[0] == c ==> |s| <= |fat| && Walk(fat, c, |fat|) == Some(s)
  {
    WalkIsChain(fat, c, |fat|);
    forall s | IsChain(fat, s) && s[0] == c ensures |s| <= |fat| && Walk(fat, c, |fat|) == Some(s) {
      forall i | 0 <= i < |s| ensures s[i] < |fat| { assert LinkOk(fat, s, i); }
      forall i, j | 0 <= i < j < |s| ensures s[i] != s[j] { ChainDistinct(fat, s, i, j); }
      Pigeonhole(s, |fat|);
      ChainIsWalk(fat, s, |fat|);
    }
  }

  // ── Allocating and freeing ────────────────────────────────────────────────

  /** The free clusters from `i` on, in order. */
  function FreeFrom(fat: seq<nat>, i: nat): seq<nat>
    decreases |fat| - i
  {
    if i >= |fat| then [] else (if fat[i] == FREE then [i] else []) + FreeFrom(fat, i + 1)
  }

  /** The clusters an allocation takes: one more than asked for, if there is one. */
  function Taken(fat: seq<nat>, count: nat): seq<nat> {
    var s := FreeFrom(fat, 0);
    if |s| <= count + 1 then s else s[..count + 1]
  }

  /** One entry more of the search for free clusters. */
  lemma {:induction false} FreeStep(fat: seq<nat>, i: nat, s: seq<nat>)
    requires i < |fat|
    ensures var s' := if fat[i] == FREE then s + [i] else s; s' + FreeFrom(fat, i + 1) == s + FreeFrom(fat, i)
  {
    assert FreeFrom(fat, i) == (if fat[i] == FREE then [i] else []) + FreeFrom(fat, i + 1);
  }

  /** The search has taken what is to be taken once it has enough or is at the end. */
  lemma {:induction false} FreeEnd(fat: seq<nat>, count: nat, i: nat, s: seq<nat>)
    requires i <= |fat| && |s| <= count + 1 && (i == |fat| || |s| == count + 1)
             && s + FreeFrom(fat, i) == FreeFrom(fat, 0)
    ensures s == Taken(fat, count)
  {
  }

  ghost predicate Increasing(s: seq<nat>) {
    forall i, j :: 0 <= i < j < |s| ==> s[i] < s[j]
  }

  /** A cluster is free exactly if its entry is zero, and clearing it makes it free. */
  lemma {:induction false} FreeMarks(fat: seq<nat>, i: nat, c: nat)
    requires i <= c < |fat|
    ensures c in FreeFrom(fat, i) <==> fat[c] == 0
    ensures Cleared(fat, [c])[c] == 0
    decreases c - i
  {
    if i < c {
      FreeMarks(fat, i + 1, c);
    } else {
      FreeFromLemma(fat, i + 1);
    }
  }

  lemma {:induction false} FreeFromLemma(fat: seq<nat>, i: nat)
    ensures Increasing(FreeFrom(fat, i))
    ensures forall k :: 0 <= k < |FreeFrom(fat, i)| ==>
              i <= FreeFrom(fat, i)[k] < |fat| && fat[FreeFrom(fat, i)[k]] == FREE
    decreases |fat| - i
  {
    if i < |fat| {
      FreeFromLemma(fat, i + 1);
    }
  }

  /** Where `c` is linked to when the clusters `s` are linked in order. */
  function Linked(fat: seq<nat>, s: seq<nat>, k: nat): (r: seq<nat>)
    requires k <= |s| && forall i :: 0 <= i < |s| ==> s[i] < |fat|
    ensures |r| == |fat|
    decreases k
  {
    if k == 0 then fat else Linked(fat, s, k - 1)[s[k - 1] := if k < |s| then s[k] else END_MARK]
  }

  lemma {:induction false} LinkedAt(fat: seq<nat>, s: seq<nat>, k: nat, c: nat)
    requires k <= |s| && Increasing(s) && (forall i :: 0 <= i < |s| ==> s[i] < |fat|) && c < |fat|
    ensures c !in s[..k] ==> Linked(fat, s, k)[c] == fat[c]
    ensures forall i :: 0 <= i < k && s[i] == c ==> Linked(fat, s, k)[c] == if i + 1 < |s| then s[i + 1] else END_MARK
    decreases k
  {
    if k > 0 {
      LinkedAt(fat, s, k - 1, c);
      assert s[..k] == s[..k - 1] + [s[k - 1]];
    }
  }

  /** The table with every cluster of `s` free. */
  function Cleared(fat: seq<nat>, s: seq<nat>): seq<nat> {
    seq(|fat|, c requires 0 <= c < |fat| => if c in s then FREE else fat[c])
  }

  lemma {:induction false} LinkedEverywhere(fat: seq<nat>, s: seq<nat>)
    requires Increasing(s) && forall i :: 0 <= i < |s| ==> s[i] < |fat|
    ensures forall c :: 0 <= c < |fat| && c !in s ==> Linked(fat, s, |s|)[c] == fat[c]
    ensures forall i :: 0 <= i < |s| ==> Linked(fat, s, |s|)[s[i]] == if i + 1 < |s| then s[i + 1] else END_MARK
  {
    assert s[..|s|] == s;
    forall c | 0 <= c < |fat| && c !in s ensures Linked(fat, s, |s|)[c] == fat[c] { LinkedAt(fat, s, |s|, c); }
    forall i | 0 <= i < |s| ensures Linked(fat, s, |s|)[s[i]] == if i + 1 < |s| then s[i + 1] else END_MARK {
      LinkedAt(fat, s, |s|, s[i]);
    }
  }

  /** All clusters of a chain are in use. */
  ghost predicate InUse(fat: seq<nat>, t: seq<nat>) {
    IsChain(fat, t) && forall i :: 0 <= i < |t| ==> t[i] < |fat| && fat[t[i]] != FREE
  }

  /** A successful allocation turns free clusters into one chain, leaves every chain in use as it was,
      and is undone by freeing the chain. */
  lemma {:induction false} AllocateLemma(fat: seq<nat>, count: nat)
    requires |fat| <= END_MIN
    ensures var s := Taken(fat, count);
            && Increasing(s) && (forall k :: 0 <= k < |s| ==> s[k] < |fat| && fat[s[k]] == FREE)
            && (s != [] ==> IsChain(Linked(fat, s, |s|), s))
            && (forall t :: InUse(fat, t) ==> InUse(Linked(fat, s, |s|), t))
            && Cleared(Linked(fat, s, |s|), s) == fat
  {
    FreeFromLemma(fat, 0);
    var s := Taken(fat, count);
    LinkedEverywhere(fat, s);
    var fat' := Linked(fat, s, |s|);
    forall i | 0 <= i < |s| ensures LinkOk(fat', s, i) {}
    forall t | InUse(fat, t) ensures InUse(fat', t) {
      forall i | 0 <= i < |t| ensures LinkOk(fat', t, i) && t[i] < |fat'| && fat'[t[i]] != FREE {
        assert LinkOk(fat, t, i);
        assert t[i] !in s;
      }
    }
  }

  /** Chains in use that do not end where `s` ends are in use still, cluster for cluster. */
  ghost predicate OthersKept(fat: seq<nat>, fat': seq<nat>, s: seq<nat>)
    requires s != []
  {
    forall u :: InUse(fat, u) && s[|s| - 1] !in u ==> InUse(fat', u)
  }

  /** Hanging freshly linked clusters `t` behind the end of a chain `s` in use makes one chain of the two
      and leaves every chain that does not end there as it was. */
  lemma {:induction false} ExtendLemma(fat: seq<nat>, s: seq<nat>, count: nat)
    requires |fat| <= END_MIN && InUse(fat, s) && Taken(fat, count) != []
    ensures var t := Taken(fat, count);
            && (forall k :: 0 <= k < |t| ==> t[k] < |fat|) && Distinct(s + t)
            && var fat' := Linked(fat, t, |t|)[s[|s| - 1] := t[0]];
               Walk(fat', s[0], |fat|) == Some(s + t) && OthersKept(fat, fat', s)
  {
    var t, last := Taken(fat, count), s[|s| - 1];
    AllocateLemma(fat, count);
    var linked := Linked(fat, t, |t|);
    assert InUse(linked, s);
    Extended(linked, s, t);
    var fat', c := linked[last := t[0]], s + t;
    WalkEnds(fat', s[0]);
    forall i, j | 0 <= i < j < |c| ensures c[i] != c[j] {
      ChainDistinct(fat', c, i, j);
    }
    forall u | InUse(fat, u) && last !in u ensures InUse(fat', u) {
      assert InUse(linked, u);
      forall i | 0 <= i < |u| ensures LinkOk(fat', u, i) && u[i] < |fat'| && fat'[u[i]] != FREE {
        assert LinkOk(linked, u, i) && u[i] in u;
      }
    }
  }

  lemma {:induction false} Extended(fat: seq<nat>, s: seq<nat>, t: seq<nat>)
    requires |fat| <= END_MIN && IsChain(fat, s) && IsChain(fat, t) && s[|s| - 1] < |fat|
             && forall k :: 0 <= k < |t| ==> t[k] !in s
    ensures IsChain(fat[s[|s| - 1] := t[0]], s + t)
  {
    var fat', c := fat[s[|s| - 1] := t[0]], s + t;
    forall i | 0 <= i < |c| ensures LinkOk(fat', c, i) {
      if i < |s| {
        assert LinkOk(fat, s, i) && LinkOk(fat, t, 0);
        if i + 1 < |s| {
          ChainDistinct(fat, s, i, |s| - 1);
        }
      } else {
        assert LinkOk(fat, t, i - |s|) && t[i - |s|] !in s && s[|s| - 1] in s;
      }
    }
  }

  /** The number of clusters allocated is the number asked for exactly if no other cluster was free. */
  lemma {:induction false} AllocatesOneMore(fat: seq<nat>, count: nat)
    requires count <= |Taken(fat, count)|
    ensures |Taken(fat, count)| == count <==> |FreeFrom(fat, 0)| == count
    ensures |FreeFrom(fat, 0)| > count ==> |Taken(fat, count)| == count + 1
  {
  }
}

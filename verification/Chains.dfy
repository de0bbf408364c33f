/**
 Key chains as terms: where a message key sits is legible from the key itself.

 A root key is some number of root steps away from the session root (its depth); a chain hangs on a root key; a
 message key hangs on a position of a chain. Depth and position identify a message key of a session.
 */
module Chains {
  import opened Octets
  import opened Crypto

  /** The chain key `n` steps after `c`. */
  function ChainAt(c: Bytes, n: nat): (r: Bytes) {
    if n == 0 then c else KdfCk(ChainAt(c, n - 1)).0
  }

  /** The message key at position `n` of the chain that starts with `c`. */
  function MessageKeyAt(c: Bytes, n: nat): Bytes {
    KdfCk(ChainAt(c, n)).1
  }

  // ---------- Reading terms ----------

  /** The string starts an output of `op` whose first argument is a string. */
  predicate IsTerm(s: Bytes, op: Op) {
    |s| > 0 && s[0].Of? && s[0].op == op && |s[0].args| > 0 && s[0].args[0].Of? && s[0].args[0].op == Boxed
  }

  /** The number of root steps a root key is the result of. */
  function RootDepth(rk: Bytes): nat {
    if IsTerm(rk, RootStep) then 1 + RootDepth(rk[0].args[0].args) else 0
  }

  /** The number of steps a chain key has been advanced. */
  function Position(ck: Bytes): nat {
    if IsTerm(ck, NextChain) then 1 + Position(ck[0].args[0].args) else 0
  }

  /** The depth of the root key a chain hangs on. */
  function ChainDepth(ck: Bytes): nat {
    if IsTerm(ck, NextChain) then ChainDepth(ck[0].args[0].args)
    else if IsTerm(ck, ChainStart) then RootDepth(ck[0].args[0].args)
    else 0
  }

  /** The root keys of a session: the session root and what root steps make of it. */
  predicate OnRootChain(root: Bytes, rk: Bytes) {
    rk == root || (IsTerm(rk, RootStep) && OnRootChain(root, rk[0].args[0].args))
  }

  /** The chain keys of a session: every chain hanging on one of its root keys, at every position. */
  predicate OnChain(root: Bytes, ck: Bytes) {
    if IsTerm(ck, NextChain) then OnChain(root, ck[0].args[0].args)
    else IsTerm(ck, ChainStart) && OnRootChain(root, ck[0].args[0].args)
  }

  /** The chain key a message key was derived from. */
  function ChainOf(mk: Bytes): Bytes {
    if IsTerm(mk, MessageKey) then mk[0].args[0].args else []
  }

  /** The message keys of a session. */
  predicate Descends(root: Bytes, mk: Bytes) {
    IsTerm(mk, MessageKey) && OnChain(root, ChainOf(mk))
  }

  lemma RootStepTerm(rk: Bytes, dh: Bytes)
    ensures var (next, chain) := KdfRk(rk, dh);
            && RootDepth(next) == RootDepth(rk) + 1
            && Position(chain) == 0 && ChainDepth(chain) == RootDepth(rk)
            && (forall root :: OnRootChain(root, rk) ==> OnRootChain(root, next) && OnChain(root, chain))
  {
    var (next, chain) := KdfRk(rk, dh);
    assert next[0] == Of(RootStep, [Box(rk), Box(dh)], 0) && chain[0] == Of(ChainStart, [Box(rk), Box(dh)], 0);
    assert next[0].args[0] == Box(rk) && chain[0].args[0] == Box(rk);
  }

  lemma ChainStepTerm(ck: Bytes)
    ensures var (next, mk) := KdfCk(ck);
            && Position(next) == Position(ck) + 1 && ChainDepth(next) == ChainDepth(ck)
            && ChainOf(mk) == ck && IsTerm(mk, MessageKey)
            && (forall root :: OnChain(root, ck) ==> OnChain(root, next) && Descends(root, mk))
  {
    var (next, mk) := KdfCk(ck);
    assert next[0] == Of(NextChain, [Box(ck)], 0) && mk[0] == Of(MessageKey, [Box(ck)], 0);
    assert next[0].args[0] == Box(ck) && mk[0].args[0] == Box(ck);
  }

  lemma {:induction false} ChainAtTerm(c: Bytes, n: nat)
    ensures Position(ChainAt(c, n)) == Position(c) + n && ChainDepth(ChainAt(c, n)) == ChainDepth(c)
    ensures forall root :: OnChain(root, c) ==> OnChain(root, ChainAt(c, n))
  {
    if n > 0 {
      ChainAtTerm(c, n - 1);
      ChainStepTerm(ChainAt(c, n - 1));
    }
  }

  lemma MessageKeyTerm(c: Bytes, n: nat)
    ensures ChainOf(MessageKeyAt(c, n)) == ChainAt(c, n)
    ensures forall root :: OnChain(root, c) ==> Descends(root, MessageKeyAt(c, n))
  {
    ChainAtTerm(c, n);
    ChainStepTerm(ChainAt(c, n));
  }

  /** Message keys of two chains agree only at the same depth and position, and then the chains are the same. */
  lemma MessageKeyPlace(c: Bytes, n: nat, d: Bytes, m: nat)
    requires Position(c) == 0 && Position(d) == 0 && MessageKeyAt(c, n) == MessageKeyAt(d, m)
    ensures n == m && c == d
  {
    MessageKeyTerm(c, n);
    MessageKeyTerm(d, m);
    ChainAtTerm(c, n);
    ChainAtTerm(d, m);
    ChainAtInjective(c, d, n);
  }

  lemma {:induction false} ChainAtInjective(c: Bytes, d: Bytes, n: nat)
    requires ChainAt(c, n) == ChainAt(d, n)
    ensures c == d
  {
    if n > 0 {
      ChainStepTerm(ChainAt(c, n - 1));
      ChainStepTerm(ChainAt(d, n - 1));
      var x, y := KdfCk(ChainAt(c, n - 1)).0, KdfCk(ChainAt(d, n - 1)).0;
      assert x[0].args[0] == Box(ChainAt(c, n - 1)) && y[0].args[0] == Box(ChainAt(d, n - 1));
      ChainAtInjective(c, d, n - 1);
    }
  }

  lemma SealKeyInjective(mk: Bytes, mk': Bytes)
    requires MessageKeys(mk).0 == MessageKeys(mk').0
    ensures mk == mk'
  {
    DeriveInjective(SealKey, [Box(mk)], SealKey, [Box(mk')], KEY_LEN);
    assert [Box(mk)][0] == [Box(mk')][0];
  }

  lemma SealNonceInjective(mk: Bytes, mk': Bytes)
    requires MessageKeys(mk).1 == MessageKeys(mk').1
    ensures mk == mk'
  {
    DeriveInjective(SealNonce, [Box(mk)], SealNonce, [Box(mk')], NONCE_LEN);
    assert [Box(mk)][0] == [Box(mk')][0];
  }
}

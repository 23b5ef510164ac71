/** The wallet label of a SnowTrace row: the chain name, a dash and the
    lower-cased address cut to the shared address length
    (`_get_wallet` in snowtrace.py). */
module Wallet {

  /** The chain part of every label (`WALLET` in snowtrace.py). */
  const WALLET: string := "Avalanche chain"

  /** Length of the fixed part of a label: the chain name and the dash. */
  const PREFIX_LEN: nat := |WALLET| + 1

  function Min(a: nat, b: nat): nat {
    if a <= b then a else b
  }

  /** ASCII lower-casing of one character. */
  function LowerChar(c: char): char {
    if 'A' <= c <= 'Z' then (c as int + 32) as char else c
  }

  /** `str.lower()`, restricted to ASCII letters. */
  function Lower(s: string): (r: string)
    ensures |r| == |s|
    ensures forall i :: 0 <= i < |s| ==> r[i] == LowerChar(s[i])
  {
    if s == [] then [] else [LowerChar(s[0])] + Lower(s[1..])
  }

  /** Two strings that `Lower` cannot tell apart. */
  predicate SameIgnoringCase(a: string, b: string) {
    |a| == |b| && forall i :: 0 <= i < |a| ==> LowerChar(a[i]) == LowerChar(b[i])
  }

  /** The part of an address that reaches the label: at most `addrLen` characters. */
  function Kept(address: string, addrLen: nat): (k: string)
    ensures |k| == Min(|address|, addrLen)
    ensures k == address[..|k|]
  {
    address[..Min(|address|, addrLen)]
  }

  /** The label `"Avalanche chain-"` followed by the lower-cased address cut to
      `addrLen` characters (Python slicing: a shorter address is kept whole). */
  function GetWallet(address: string, addrLen: nat): (w: string)
    ensures |w| == PREFIX_LEN + Min(|address|, addrLen)
    ensures w[..PREFIX_LEN] == WALLET + "-"
    ensures forall i :: 0 <= i < Min(|address|, addrLen) ==> w[PREFIX_LEN + i] == LowerChar(address[i])
  {
    WALLET + "-" + Lower(address)[..Min(|address|, addrLen)]
  }

  lemma LowerCharIdempotent(c: char)
    ensures LowerChar(LowerChar(c)) == LowerChar(c)
  {
  }

  /** Addresses that differ only in letter case give the same label. */
  lemma WalletIgnoresCase(a: string, b: string, addrLen: nat)
    requires SameIgnoringCase(a, b)
    ensures GetWallet(a, addrLen) == GetWallet(b, addrLen)
  {
    LowerIgnoresCase(a, b);
  }

  lemma LowerIgnoresCase(a: string, b: string)
    requires SameIgnoringCase(a, b)
    ensures Lower(a) == Lower(b)
  {
  }

  /** Lower-casing an address first does not change its label. */
  lemma WalletOfLowered(a: string, addrLen: nat)
    ensures GetWallet(Lower(a), addrLen) == GetWallet(a, addrLen)
  {
    forall i | 0 <= i < |a|
      ensures LowerChar(Lower(a)[i]) == LowerChar(a[i])
    {
      LowerCharIdempotent(a[i]);
    }
    WalletIgnoresCase(Lower(a), a, addrLen);
  }

  /** Every address at least `addrLen` long gives a label of the same width. */
  lemma WalletFixedWidth(a: string, b: string, addrLen: nat)
    requires addrLen <= |a| && addrLen <= |b|
    ensures |GetWallet(a, addrLen)| == |GetWallet(b, addrLen)| == PREFIX_LEN + addrLen
  {
  }

  /** Two addresses get the same label exactly when the parts of them the
      label keeps are equal ignoring case. */
  lemma WalletEqualIff(a: string, b: string, addrLen: nat)
    ensures GetWallet(a, addrLen) == GetWallet(b, addrLen)
        <==> SameIgnoringCase(Kept(a, addrLen), Kept(b, addrLen))
  {
    var ka, kb := Kept(a, addrLen), Kept(b, addrLen);
    var wa, wb := GetWallet(a, addrLen), GetWallet(b, addrLen);
    if wa == wb {
      assert |ka| == |kb|;
      forall i | 0 <= i < |ka|
        ensures LowerChar(ka[i]) == LowerChar(kb[i])
      {
        assert wa[PREFIX_LEN + i] == wb[PREFIX_LEN + i];
      }
    }
    if SameIgnoringCase(ka, kb) {
      assert |wa| == |wb|;
      forall i | 0 <= i < |wa|
        ensures wa[i] == wb[i]
      {
        if i < PREFIX_LEN {
          assert wa[..PREFIX_LEN][i] == wb[..PREFIX_LEN][i];
        } else {
          assert ka[i - PREFIX_LEN] == a[i - PREFIX_LEN];
          assert kb[i - PREFIX_LEN] == b[i - PREFIX_LEN];
        }
      }
    }
  }
}

/** Message ids (src/common/msg_id_util.cpp): ten decimal digits, incremented in place. */
module MsgIds {
  import opened Decimal

  const ID_LENGTH: nat := 10

  predicate AllNines(s: string) { forall i :: 0 <= i < |s| ==> s[i] == '9' }

  predicate IsId(s: string) { |s| == ID_LENGTH && AllDigits(s) }

  /** The next id in decimal. */
  function Successor(s: string): (r: string)
    requires AllDigits(s) && !AllNines(s)
    ensures |r| == |s| && AllDigits(r)
  {
    var n := |s| - 1;
    if s[n] == '9' then Successor(s[..n]) + "0" else s[..n] + [s[n] + 1 as char]
  }

  lemma {:induction false} SuccessorAddsOne(s: string)
    requires AllDigits(s) && !AllNines(s)
    ensures Value(Successor(s)) == Value(s) + 1
    decreases |s|
  {
    var n := |s| - 1;
    var r := Successor(s);
    if s[n] == '9' {
      SuccessorAddsOne(s[..n]);
      assert r[..n] == Successor(s[..n]);
    } else {
      assert r[..n] == s[..n];
    }
  }

  function Zeros(n: nat): (s: string)
    ensures |s| == n && forall i :: 0 <= i < n ==> s[i] == '0'
  {
    seq(n, _ => '0')
  }

  /** Trailing nines become zeros behind the successor of what precedes them. */
  lemma {:induction false} CarryOver(s: string, i: nat)
    requires AllDigits(s) && i < |s| && s[i] != '9' && AllNines(s[i + 1..])
    ensures Successor(s) == s[..i] + [s[i] + 1 as char] + Zeros(|s| - i - 1)
    decreases |s|
  {
    var n := |s| - 1;
    if i < n {
      assert s[n] == s[i + 1..][n - i - 1];
      assert s[..n][i + 1..] == s[i + 1..][..n - i - 1];
      CarryOver(s[..n], i);
      assert s[..n][..i] == s[..i];
      assert Zeros(n - i - 1) + "0" == Zeros(n - i);
    } else {
      assert Zeros(0) == [];
    }
  }

  lemma LastId(s: string)
    requires IsId(s)
    ensures AllNines(s) <==> s == "9999999999"
  {
    var nines := "9999999999";
    assert AllNines(s) ==> forall i :: 0 <= i < ID_LENGTH ==> s[i] == nines[i];
  }

  /** A scan over nines cannot reach the left end of an id that has another digit. */
  lemma NotAllScanned(s: string, i: nat)
    requires i <= |s| && !AllNines(s)
    ensures AllNines(s[i..]) ==> i > 0
  {
    assert s[0..] == s;
  }

  class MsgIdUtil {
    var id: string
    ghost var epoch: seq<string>

    /** Nothing has been issued yet; or `epoch` are the ids issued since the last seeding, the last of which is
        `id`, and they are those that the seed determines. */
    ghost predicate Valid()
      reads this
    {
      || (id == "" && epoch == [])
      || (IsId(id) && epoch != [] && IsId(epoch[0]) && epoch[|epoch| - 1] == id
          && epoch == Epoch(epoch[0], |epoch| - 1))
    }

    constructor ()
      ensures Valid() && id == ""
    {
      id, epoch := "", [];
    }

    /** Seeds with `random` at first and after the last id; otherwise counts up by one. */
    method GetMsgId(random: string) returns (issued: string)
      requires Valid() && IsId(random)
      modifies this
      ensures Valid() && issued == id && IsId(issued)
      ensures issued == if old(id) == "" || AllNines(old(id)) then random else Successor(old(id))
      ensures epoch == (if old(id) == "" || AllNines(old(id)) then [] else old(epoch)) + [issued]
    {
      if id != "" {
        LastId(id);
      }
      if id == "" || id == "9999999999" {
        id := random;
        epoch := [random];
      } else {
        EpochGrows(epoch[0], |epoch| - 1);
        var i := ScanNines();
        CarryOver(id, i);
        Carry(i);
        epoch := epoch + [id];
      }
      issued := id;
    }

    /** The backward scan over the nines; some other digit stops it before the left end. */
    method ScanNines() returns (i: nat)
      requires IsId(id) && !AllNines(id)
      ensures i < |id| && id[i] != '9' && AllNines(id[i + 1..])
    {
      i := |id| - 1;
      while id[i] == '9'
        invariant i < |id| && AllNines(id[i + 1..])
        decreases i
      {
        assert id[i..] == [id[i]] + id[i + 1..];
        NotAllScanned(id, i);
        i := i - 1;
      }
    }

    /** Adds one to the digit at `i` and zeroes the digits behind it. */
    method Carry(i: nat)
      requires IsId(id) && i < |id| && id[i] != '9'
      modifies this`id
      ensures id == old(id[..i] + [id[i] + 1 as char]) + Zeros(|old(id)| - i - 1)
    {
      ghost var before := id;
      id := id[i := id[i] + 1 as char];
      var j := i + 1;
      while j < |id|
        invariant i < j <= |id| == |before|
        invariant id[..i] == before[..i] && id[i] == before[i] + 1 as char
        invariant forall k :: i < k < j ==> id[k] == '0'
      {
        id := id[j := '0'];
        j := j + 1;
      }
    }
  }

  /** The ids issued after the seed, up to `n` of them or to the last one. */
  function Epoch(seed: string, n: nat): (ids: seq<string>)
    requires IsId(seed)
    ensures ids != [] && ids[0] == seed && forall k :: 0 <= k < |ids| ==> IsId(ids[k])
    decreases n
  {
    if n == 0 || AllNines(seed) then [seed] else [seed] + Epoch(Successor(seed), n - 1)
  }

  /** One more id: the successor of the last one. */
  lemma {:induction false} EpochGrows(seed: string, n: nat)
    requires IsId(seed) && |Epoch(seed, n)| == n + 1 && !AllNines(Epoch(seed, n)[n])
    ensures Epoch(seed, n + 1) == Epoch(seed, n) + [Successor(Epoch(seed, n)[n])]
    decreases n
  {
    if n > 0 {
      EpochGrows(Successor(seed), n - 1);
    }
  }

  lemma {:induction false} EpochCounts(seed: string, n: nat, k: nat)
    requires IsId(seed) && k < |Epoch(seed, n)|
    ensures Value(Epoch(seed, n)[k]) == Value(seed) + k
    decreases n
  {
    if k > 0 {
      SuccessorAddsOne(seed);
      EpochCounts(Successor(seed), n - 1, k - 1);
    }
  }

  /** Within one seed epoch ids count up by one, so they are pairwise distinct. */
  lemma EpochIsDistinct(seed: string, n: nat, j: nat, k: nat)
    requires IsId(seed) && j < k < |Epoch(seed, n)|
    ensures Value(Epoch(seed, n)[k]) == Value(Epoch(seed, n)[j]) + (k - j)
    ensures Epoch(seed, n)[j] != Epoch(seed, n)[k]
  {
    EpochCounts(seed, n, j);
    EpochCounts(seed, n, k);
  }
}

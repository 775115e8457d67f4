/** The dual-port RAM of dpram.sv, register-transfer branch with perfect memory. */
module Dpram {

  import opened Words

  /** A stored word after a write: enabled bytes are replaced, the others kept. */
  function Masked(was: Word, wdata: Word, be: seq<bool>): (r: Word)
    requires |was| == |wdata| == |be|
    ensures |r| == |was|
  {
    seq(|was|, i requires 0 <= i < |was| => if be[i] then wdata[i] else was[i])
  }

  function AllOnes(n: nat): (be: seq<bool>)
    ensures |be| == n
  {
    seq(n, _ => true)
  }

  lemma MaskedAll(was: Word, wdata: Word)
    requires |was| == |wdata|
    ensures Masked(was, wdata, AllOnes(|was|)) == wdata
  {}

  class Ram {
    const n: nat                // bytes in a word
    const mem: array<Word>
    var aAddr: nat              // registered read addresses
    var bAddr: nat

    ghost predicate Valid()
      reads this, mem
    {
      && aAddr < mem.Length && bAddr < mem.Length
      && forall k :: 0 <= k < mem.Length ==> |mem[k]| == n
    }

    constructor (n: nat, depth: nat)
      requires depth > 0
      ensures Valid() && fresh(mem) && this.n == n && mem.Length == depth
    {
      this.n := n;
      aAddr, bAddr := 0, 0;
      mem := new Word[depth](_ => ToWord(n, 0));
    }

    /** A rising edge of port A's clock. */
    method EdgeA(addr: nat, wdata: Word, be: seq<bool>, wren: bool, rden: bool)
      requires Valid() && addr < mem.Length && |wdata| == |be| == n
      modifies mem, `aAddr
      ensures Valid()
      ensures mem[..] == if wren then old(mem[..])[addr := Masked(old(mem[addr]), wdata, be)] else old(mem[..])
      ensures aAddr == if rden && !wren then addr else old(aAddr)
    {
      if wren {
        Write(addr, wdata, be);
      } else if rden {
        aAddr := addr;
      }
    }

    /** A rising edge of port B's clock. */
    method EdgeB(addr: nat, wdata: Word, be: seq<bool>, wren: bool, rden: bool)
      requires Valid() && addr < mem.Length && |wdata| == |be| == n
      modifies mem, `bAddr
      ensures Valid()
      ensures mem[..] == if wren then old(mem[..])[addr := Masked(old(mem[addr]), wdata, be)] else old(mem[..])
      ensures bAddr == if rden && !wren then addr else old(bAddr)
    {
      if wren {
        Write(addr, wdata, be);
      } else if rden {
        bAddr := addr;
      }
    }

    /** The write loop over the byte enables. */
    method Write(addr: nat, wdata: Word, be: seq<bool>)
      requires Valid() && addr < mem.Length && |wdata| == |be| == n
      modifies mem
      ensures Valid()
      ensures mem[..] == old(mem[..])[addr := Masked(old(mem[addr]), wdata, be)]
    {
      var was := mem[addr];
      ghost var before := mem[..];
      for i := 0 to n
        invariant |mem[addr]| == n && mem[..] == before[addr := mem[addr]]
        invariant forall k :: 0 <= k < i ==> mem[addr][k] == Masked(was, wdata, be)[k]
        invariant forall k :: i <= k < n ==> mem[addr][k] == was[k]
      {
        if be[i] {
          mem[addr] := mem[addr][i := wdata[i]];
        }
      }
      assert mem[addr] == Masked(was, wdata, be);
    }
  }
}

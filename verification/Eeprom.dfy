/** Reading and programming the EEPROM through its auto-increment register
    (driverlib/eeprom.c), against a flat array of words. */
module Eeprom {
  import opened Bytes

  const BLOCK_WORDS := 16
  const NOPERM := 0x10    // EEPROM_EEDONE_NOPERM

  /** How many of n words from word w on can be written before the first denied one. */
  function Allowed(denied: set<nat>, w: nat, n: nat): (k: nat)
    ensures k <= n
    ensures forall a: nat | w <= a < w + k :: a / BLOCK_WORDS !in denied
    ensures k < n ==> (w + k) / BLOCK_WORDS in denied
    decreases n
  {
    if n == 0 || w / BLOCK_WORDS in denied then 0 else 1 + Allowed(denied, w + 1, n - 1)
  }

  /** The flat array after data has been stored word by word from word w on. */
  function Stored(words: seq<u32>, w: nat, data: seq<u32>): (s: seq<u32>)
    requires w + |data| <= |words|
    ensures |s| == |words|
  {
    var n := |data| - 1;
    if data == [] then words else Stored(words, w, data[..n])[w + n := data[n]]
  }

  /** The auto-increment: the offset wraps at the end of a block. */
  function Next(offset: nat): nat {
    if offset == BLOCK_WORDS - 1 then 0 else offset + 1
  }

  class Controller {
    var words: seq<u32>         // block after block
    const denied: set<nat>      // blocks without write permission
    var block: nat              // EEPROM_EEBLOCK
    var offset: nat             // EEPROM_EEOFFSET
    var done: nat               // EEPROM_EEDONE of an idle controller

    constructor (words: seq<u32>, denied: set<nat>)
      ensures this.words == words && this.denied == denied
    {
      this.words, this.denied := words, denied;
      block, offset, done := 0, 0, 0;
    }

    /** A read of EEPROM_EERDWRINC: the offset moves on and wraps within the block. */
    method ReadIncrement() returns (x: u32)
      requires offset < BLOCK_WORDS && block * BLOCK_WORDS + offset < |words|
      modifies this`offset
      ensures x == words[block * BLOCK_WORDS + old(offset)] && offset == Next(old(offset))
    {
      x := words[block * BLOCK_WORDS + offset];
      offset := Next(offset);
    }

    /** A write of EEPROM_EERDWRINC. */
    method WriteIncrement(x: u32)
      requires offset < BLOCK_WORDS && block * BLOCK_WORDS + offset < |words|
      modifies this`words, this`offset, this`done
      ensures if block in denied then done == NOPERM && words == old(words)
              else done == 0 && words == old(words)[block * BLOCK_WORDS + old(offset) := x]
                   && offset == Next(old(offset))
    {
      if block in denied {
        done := NOPERM;
      } else {
        words := words[block * BLOCK_WORDS + offset := x];
        offset := Next(offset);
        done := 0;
      }
    }

    /** EEPROMRead: the words of the range, across any number of block ends. */
    method Read(address: u32, count: nat) returns (data: seq<u32>)
      requires address % 4 == 0 && count % 4 == 0 && address + count <= 4 * |words|
      modifies this`block, this`offset
      ensures data == words[address / 4..address / 4 + count / 4]
    {
      data := [];
      block := address / 64;
      offset := address / 4 % BLOCK_WORDS;
      var left := count / 4;
      ghost var w, n := address / 4, count / 4;
      BlockAndOffset(address);
      while left != 0
        invariant 0 <= left <= n && data == words[w..w + (n - left)]
        invariant left != 0 ==> offset < BLOCK_WORDS && block * BLOCK_WORDS + offset == w + (n - left)
      {
        var x := ReadIncrement();
        data := data + [x];
        left := left - 1;
        if left != 0 && offset == 0 {
          block := block + 1;
        }
      }
    }

    /** The write loop of EEPROMProgram. */
    method WriteWords(data: seq<u32>, ghost w: nat) returns (status: nat)
      requires w + |data| <= |words| && offset < BLOCK_WORDS && block * BLOCK_WORDS + offset == w
      modifies this`words, this`block, this`offset, this`done
      ensures var k := Allowed(denied, w, |data|);
              && words == Stored(old(words), w, data[..k])
              && status == if k < |data| then NOPERM else if |data| > 0 then 0 else old(done)
    {
      hide Stored, Allowed;
      StoredNone(words, w);
      ghost var words0, now := words, words;
      ghost var k := Allowed(denied, w, |data|);
      var i := 0;
      var left := |data|;
      assert data[..0] == [];
      while left != 0
        invariant 0 <= i <= k && left == |data| - i
        invariant now == words && now == Stored(words0, w, data[..i])
        invariant left != 0 ==> offset < BLOCK_WORDS && block * BLOCK_WORDS + offset == w + i
        invariant done == if i > 0 then 0 else old(done)
        decreases left
      {
        BlockOf(block, offset);
        StoredNext(words0, w, data, i);
        WriteIncrement(data[i]);
        if done == NOPERM {
          return done;
        }
        now := words;
        i := i + 1;
        left := left - 1;
        if left != 0 && offset == 0 {
          block := block + 1;
        }
      }
      return done;
    }

    /** EEPROMProgram: exactly the words before the first denied one are stored, nothing
        else changes, and the status reports a denied word. */
    method Program(data: seq<u32>, address: u32, count: nat) returns (status: nat)
      requires count == 4 * |data| && address % 4 == 0 && address + count <= 4 * |words|
      modifies this`words, this`block, this`offset, this`done
      ensures var w := address / 4;
              var k := Allowed(denied, w, |data|);
              && words == Stored(old(words), w, data[..k])
              && status == if k < |data| then 0x10 else if |data| > 0 then 0 else old(done)
    {
      block := address / 64;
      offset := address / 4 % BLOCK_WORDS;
      BlockAndOffset(address);
      status := WriteWords(data, address / 4);
    }
  }

  lemma BlockAndOffset(address: nat)
    requires address % 4 == 0
    ensures address / 64 * BLOCK_WORDS + address / 4 % BLOCK_WORDS == address / 4
  {
    var w := address / 4;
    assert w == w / 16 * 16 + w % 16;
    assert address == 64 * (w / 16) + 4 * (w % 16);
    assert address / 64 == w / 16;
  }

  lemma BlockOf(block: nat, offset: nat)
    requires offset < BLOCK_WORDS
    ensures (block * BLOCK_WORDS + offset) / BLOCK_WORDS == block
  {}

  lemma StoredNone(words: seq<u32>, w: nat)
    requires w <= |words|
    ensures Stored(words, w, []) == words
  {}

  lemma StoredNext(words: seq<u32>, w: nat, data: seq<u32>, i: nat)
    requires w + |data| <= |words| && i < |data|
    ensures Stored(words, w, data[..i])[w + i := data[i]] == Stored(words, w, data[..i + 1])
  {
    assert data[..i + 1][..i] == data[..i];
  }

  /** Reading back a range that was stored gives the data, and every other word is as before. */
  lemma {:induction false} StoredReadsBack(words: seq<u32>, w: nat, data: seq<u32>)
    requires w + |data| <= |words|
    ensures var s := Stored(words, w, data);
            && s[w..w + |data|] == data
            && forall a | 0 <= a < |words| && !(w <= a < w + |data|) :: s[a] == words[a]
  {
    if data != [] {
      var n := |data| - 1;
      StoredReadsBack(words, w, data[..n]);
      var s := Stored(words, w, data[..n]);
      assert s[w + n := data[n]][w..w + n + 1] == s[w..w + n] + [data[n]];
      assert data == data[..n] + [data[n]];
    }
  }
}

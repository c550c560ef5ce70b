/** Programming on-chip flash through the 32-word write buffer (driverlib/flash.c,
    FlashProgram), against a flat array of words. */
module Flash {
  import opened Bytes

  type word = bv32

  const BLOCK_WORDS := 32
  const BLOCK_BYTES := 128

  /** One commit of the write buffer: a 128-byte block and the words of it that are valid. */
  datatype Commit = Commit(block: nat, valid: set<nat>)

  /** Programming a word can only clear bits of what it held. */
  function Cleared(before: word, x: word): word {
    before & x
  }

  /** The flash array and its write protection, by block. */
  datatype Array = Array(words: seq<word>, locked: set<nat>) {
    predicate Writable(a: nat) {
      a < |words| && a / BLOCK_WORDS !in locked
    }

    /** Programming word a with x meets no error: it is writable, and no bit that is 0 would
        have to become 1. */
    predicate Takes(a: nat, x: word) {
      Writable(a) && Cleared(words[a], x) == x
    }

    /** Words at, at + 1, ... programmed one by one; words that cannot be written stay. */
    function Programmed(at: nat, data: seq<word>): Array {
      this.(words := seq(|words|, a requires 0 <= a < |words| =>
        if at <= a < at + |data| && Writable(a) then Cleared(words[a], data[a - at]) else words[a]))
    }

    /** The valid words of the write buffer programmed into a block. */
    function Committed(c: Commit, buffer: seq<word>): Array
      requires |buffer| == BLOCK_WORDS
    {
      this.(words := seq(|words|, a requires 0 <= a < |words| =>
        if a / BLOCK_WORDS == c.block && a % BLOCK_WORDS in c.valid && Writable(a)
        then Cleared(words[a], buffer[a % BLOCK_WORDS]) else words[a]))
    }
  }

  ghost predicate AllWritable(m: Array, at: nat, n: nat) {
    forall a: nat | at <= a < at + n :: m.Writable(a)
  }

  ghost predicate AllTaken(m: Array, at: nat, data: seq<word>) {
    forall k | 0 <= k < |data| :: TakesNth(m, at, data, k)
  }

  ghost predicate TakesNth(m: Array, at: nat, data: seq<word>, k: int)
    requires 0 <= k < |data|
  {
    m.Takes(at + k, data[k])
  }

  /** Some valid word of the write buffer meets an error. */
  predicate CommitFails(m: Array, c: Commit, buffer: seq<word>)
    requires |buffer| == BLOCK_WORDS && forall k | k in c.valid :: k < BLOCK_WORDS
  {
    exists k | k in c.valid :: !m.Takes(c.block * BLOCK_WORDS + k, buffer[k])
  }

  /** The words of a range that fall into its first block, and the commits of the range. */
  function FirstPart(at: nat, n: nat): nat {
    Min(n, BLOCK_WORDS - at % BLOCK_WORDS)
  }

  function Indices(first: nat, n: nat): (s: set<nat>)
    ensures forall k :: k in s <==> first <= k < first + n
  {
    if n == 0 then {} else Indices(first, n - 1) + {first + n - 1}
  }

  function Commits(at: nat, n: nat): seq<Commit>
    decreases n
  {
    if n == 0 then []
    else
      var k := FirstPart(at, n);
      [Part(at, k)] + Commits(at + k, n - k)
  }

  /** The commit of n words from word w on, all in one block. */
  function Part(w: nat, n: nat): Commit {
    Commit(w / BLOCK_WORDS, Indices(w % BLOCK_WORDS, n))
  }

  /** The write buffer holds the first n words of data, for word w on. */
  ghost predicate Filled(buffer: seq<word>, valid: set<nat>, w: nat, n: nat, data: seq<word>) {
    var first := w % BLOCK_WORDS;
    && |buffer| == BLOCK_WORDS && n <= |data| && first + n <= BLOCK_WORDS
    && valid == Indices(first, n) && buffer[first..first + n] == data[..n]
  }

  /** The part of the controller's state that a whole call is about. */
  datatype Snapshot = Snapshot(flash: Array, log: seq<Commit>, error: bool)

  /** The first d words have been programmed and committed since s0. */
  ghost predicate Upto(s0: Snapshot, s: Snapshot, w: nat, data: seq<word>, d: nat) {
    && d <= |data|
    && s.flash == s0.flash.Programmed(w, data[..d])
    && s.log + Commits(w + d, |data| - d) == s0.log + Commits(w, |data|)
    && (s.error <==> s0.error || !AllTaken(s0.flash, w, data[..d]))
  }

  class Controller {
    var flash: Array
    var fma: nat             // FLASH_FMA: byte address of the block
    var buffer: seq<word>    // FLASH_FWBn
    var fwbval: set<nat>     // FLASH_FWBVAL: which of them hold data
    var error: bool          // FLASH_FCRIS: an access violation or invalid data
    ghost var log: seq<Commit>

    /** Between calls the write buffer is empty: only this driver fills it. */
    ghost predicate Valid()
      reads this
    {
      |buffer| == BLOCK_WORDS && fwbval == {}
    }

    method WriteBuffer(k: nat, w: word)
      requires |buffer| == BLOCK_WORDS && k < BLOCK_WORDS
      modifies this`buffer, this`fwbval
      ensures buffer == old(buffer)[k := w] && fwbval == old(fwbval) + {k}
    {
      buffer := buffer[k := w];
      fwbval := fwbval + {k};
    }

    /** The hardware's commit: program the valid words, flag those that cannot be written and
        those that would need a 0 bit to become 1. */
    method CommitBuffer()
      requires |buffer| == BLOCK_WORDS && forall k | k in fwbval :: k < BLOCK_WORDS
      modifies this`flash, this`fwbval, this`error, this`log
      ensures var c := Commit(fma / BLOCK_BYTES, old(fwbval));
              && flash == old(flash).Committed(c, buffer) && log == old(log) + [c] && fwbval == {}
              && (error <==> old(error) || CommitFails(old(flash), c, buffer))
    {
      hide CommitFails, Array.Committed;
      var c := Commit(fma / BLOCK_BYTES, fwbval);
      error := error || CommitFails(flash, c, buffer);
      flash := flash.Committed(c, buffer);
      log := log + [c];
      fwbval := {};
    }

    /** Fill the write buffer to the end of the block or of the data. */
    method FillBuffer(data: seq<word>, address: u32, count: nat, ghost w: nat) returns (n: nat)
      requires Valid() && count == 4 * |data| && count > 0
      requires address == 4 * w && address + count < 0x1_0000_0000
      modifies this`buffer, this`fwbval
      ensures n == FirstPart(w, |data|) && Filled(buffer, fwbval, w, n, data)
    {
      n := 0;
      var at, left := address, count;
      while (at % BLOCK_BYTES != 0 || fwbval == {}) && left != 0
        invariant 0 <= n <= FirstPart(w, |data|) && left == count - 4 * n
        invariant at == address + 4 * n
        invariant Filled(buffer, fwbval, w, n, data)
        decreases left
      {
        NotYetFull(w, n, |data|, fwbval);
        FilledNext(buffer, fwbval, w, n, data);
        WriteBuffer(at % BLOCK_BYTES / 4, data[n]);
        at := at + 4;
        left := left - 4;
        n := n + 1;
      }
      BufferFull(w, n, |data|, fwbval);
    }

    /** One round: set the block address, fill the buffer, commit it. */
    method ProgramBlock(data: seq<word>, address: u32, count: nat, ghost w: nat) returns (n: nat)
      requires Valid() && count == 4 * |data| && count > 0
      requires address == 4 * w && address + count < 0x1_0000_0000
      modifies this
      ensures Valid() && n == FirstPart(w, |data|)
      ensures flash == old(flash).Programmed(w, data[..n]) && log == old(log) + [Part(w, n)]
      ensures error <==> old(error) || !AllTaken(old(flash), w, data[..n])
    {
      hide Array.Committed, Array.Programmed, CommitFails, AllTaken, Indices;
      BlockOf(address, w);
      fma := address - address % BLOCK_BYTES;
      n := FillBuffer(data, address, count, w);
      CommitIsPart(flash, w, data[..n], buffer);
      CommitErrors(flash, w, data[..n], buffer);
      CommitBuffer();
    }

    method ProgramWords(data: seq<word>, address: u32, count: nat, ghost w: nat)
      requires Valid() && count == 4 * |data|
      requires address == 4 * w && address + count < 0x1_0000_0000
      modifies this
      ensures Valid()
      ensures flash == old(flash).Programmed(w, data)
      ensures log == old(log) + Commits(w, |data|)
      ensures error <==> old(error) || !AllTaken(old(flash), w, data)
    {
      hide Upto, Commits;
      var at, left, d: nat := address, count, 0;
      ghost var s0 := Snapshot(flash, log, error);
      ghost var s := s0;
      UptoStart(s0, w, data);
      while left != 0
        invariant Valid() && 0 <= d <= |data| && left == count - 4 * d
        invariant at == address + 4 * d
        invariant s == Snapshot(flash, log, error) && Upto(s0, s, w, data, d)
        decreases left
      {
        var n := ProgramBlock(data[d..], at, left, w + d);
        ghost var s' := Snapshot(flash, log, error);
        UptoNext(s0, s, s', w, data, d, n);
        s := s';
        at := at + 4 * n;
        left := left - 4 * n;
        d := d + n;
      }
      UptoEnd(s0, s, w, data);
    }

    /** FlashProgram. The flash ends up as if the words had been programmed one by one into
        a flat array and nothing else had been touched; every block of the range is committed
        once, in order, with exactly its words of the range; and 0 is returned exactly when
        every word of the range is writable and now holds its data. */
    method Program(data: seq<word>, address: u32, count: nat) returns (r: int)
      requires Valid() && count == 4 * |data|
      requires address % 4 == 0 && address + count < 0x1_0000_0000
      modifies this
      ensures Valid()
      ensures flash == old(flash).Programmed(address / 4, data)
      ensures log == old(log) + Commits(address / 4, |data|)
      ensures r == if AllTaken(old(flash), address / 4, data) then 0 else -1
      ensures r == 0 <==> AllWritable(flash, address / 4, |data|) && Holds(flash, address / 4, data)
    {
      error := false;
      TakenExactly(flash, address / 4, data);
      ProgramWords(data, address, count, address / 4);
      r := if error then -1 else 0;
    }
  }

  // ----- addresses and blocks

  lemma BlockOf(at: nat, w: nat)
    requires at == 4 * w
    ensures at % BLOCK_BYTES / 4 == w % BLOCK_WORDS && (at % BLOCK_BYTES == 0 <==> w % BLOCK_WORDS == 0)
    ensures 0 <= at - at % BLOCK_BYTES && (at - at % BLOCK_BYTES) / BLOCK_BYTES == w / BLOCK_WORDS
  {
    var q, r := w / BLOCK_WORDS, w % BLOCK_WORDS;
    assert at == BLOCK_BYTES * q + 4 * r;
    assert at / BLOCK_BYTES == q && at % BLOCK_BYTES == 4 * r;
  }

  /** While the fill loop runs, the next word still belongs to the block. */
  lemma NotYetFull(w: nat, n: nat, total: nat, valid: set<nat>)
    requires n < total && n <= FirstPart(w, total) && valid == Indices(w % BLOCK_WORDS, n)
    requires (4 * w + 4 * n) % BLOCK_BYTES != 0 || valid == {}
    ensures n < FirstPart(w, total)
    ensures (4 * w + 4 * n) % BLOCK_BYTES / 4 == w % BLOCK_WORDS + n < BLOCK_WORDS
  {
    BlockOf(4 * w + 4 * n, w + n);
    assert n > 0 ==> w % BLOCK_WORDS in valid;
  }

  lemma FilledNext(buffer: seq<word>, valid: set<nat>, w: nat, n: nat, data: seq<word>)
    requires Filled(buffer, valid, w, n, data) && n < |data| && w % BLOCK_WORDS + n < BLOCK_WORDS
    ensures var k := w % BLOCK_WORDS + n;
            Filled(buffer[k := data[n]], valid + {k}, w, n + 1, data)
  {
    var first := w % BLOCK_WORDS;
    var k := first + n;
    assert buffer[k := data[n]][first..k + 1] == buffer[first..k] + [data[n]];
    assert data[..n + 1] == data[..n] + [data[n]];
  }

  /** When the fill loop ends, the part of the range in this block is in the buffer. */
  lemma BufferFull(w: nat, n: nat, total: nat, valid: set<nat>)
    requires 0 < total && n <= FirstPart(w, total) && valid == Indices(w % BLOCK_WORDS, n)
    requires n == total || ((4 * w + 4 * n) % BLOCK_BYTES == 0 && valid != {})
    ensures n == FirstPart(w, total)
  {
    BlockOf(4 * w + 4 * n, w + n);
    assert n == 0 ==> valid == {};
  }

  /** The words of a block part are exactly a range of the array. */
  lemma InBlockPart(a: nat, w: nat, n: nat)
    requires n <= BLOCK_WORDS - w % BLOCK_WORDS
    ensures a / BLOCK_WORDS == w / BLOCK_WORDS && a % BLOCK_WORDS in Indices(w % BLOCK_WORDS, n) <==> w <= a < w + n
  {}

  lemma CommitIsPart(m: Array, w: nat, data: seq<word>, buffer: seq<word>)
    requires |buffer| == BLOCK_WORDS && |data| <= BLOCK_WORDS - w % BLOCK_WORDS
    requires buffer[w % BLOCK_WORDS..w % BLOCK_WORDS + |data|] == data
    ensures m.Committed(Part(w, |data|), buffer) == m.Programmed(w, data)
  {
    var n := |data|;
    var x := m.Committed(Part(w, n), buffer);
    forall a | 0 <= a < |m.words| ensures x.words[a] == m.Programmed(w, data).words[a] {
      InBlockPart(a, w, n);
      if w <= a < w + n {
        assert a % BLOCK_WORDS == w % BLOCK_WORDS + (a - w);
        assert buffer[w % BLOCK_WORDS..w % BLOCK_WORDS + n][a - w] == data[a - w];
      }
    }
    assert x.words == m.Programmed(w, data).words;
  }

  lemma CommitErrors(m: Array, w: nat, data: seq<word>, buffer: seq<word>)
    requires |buffer| == BLOCK_WORDS && |data| <= BLOCK_WORDS - w % BLOCK_WORDS
    requires buffer[w % BLOCK_WORDS..w % BLOCK_WORDS + |data|] == data
    ensures var c := Part(w, |data|);
            (forall k | k in c.valid :: k < BLOCK_WORDS) && (CommitFails(m, c, buffer) <==> !AllTaken(m, w, data))
  {
    hide Array.Takes;
    var c, first := Part(w, |data|), w % BLOCK_WORDS;
    var base := c.block * BLOCK_WORDS;
    assert w == base + first;
    assert c.valid == Indices(first, |data|);
    hide Indices, Part;
    forall i | 0 <= i < |data| ensures TakesNth(m, w, data, i) <==> m.Takes(base + (first + i), buffer[first + i]) {
      assert buffer[first..first + |data|][i] == buffer[first + i];
      assert base + (first + i) == w + i;
    }
    hide TakesNth;
    if k :| k in c.valid && !m.Takes(base + k, buffer[k]) {
      assert !TakesNth(m, w, data, k - first);
    }
    if i :| 0 <= i < |data| && !TakesNth(m, w, data, i) {
      assert first + i in c.valid;
    }
  }

  /** Programming a range in two parts is programming it at once. */
  lemma ProgrammedTwice(m: Array, w: nat, data: seq<word>, d: nat, n: nat)
    requires d + n <= |data|
    ensures m.Programmed(w, data[..d]).Programmed(w + d, data[d..][..n]) == m.Programmed(w, data[..d + n])
  {
    var p := m.Programmed(w, data[..d]);
    var x, y := p.Programmed(w + d, data[d..][..n]), m.Programmed(w, data[..d + n]);
    forall a | 0 <= a < |m.words| ensures x.words[a] == y.words[a] {
      assert p.Writable(a) <==> m.Writable(a);
    }
    assert x.words == y.words;
  }

  /** Each word after programming: those in the range that are not locked have lost the bits that
      are 0 in the data, and all others are as before. */
  lemma {:induction false} ProgrammedWord(m: Array, w: nat, data: seq<word>, a: nat)
    requires a < |m.words|
    ensures var p := m.Programmed(w, data);
            && |p.words| == |m.words| && p.locked == m.locked
            && p.words[a] == if w <= a < w + |data| && a / 32 !in m.locked then m.words[a] & data[a - w] else m.words[a]
  {}

  /** Words outside the range stay. */
  lemma Untouched(m: Array, w: nat, data: seq<word>, a: nat)
    requires !(w <= a < w + |data|)
    ensures var p := m.Programmed(w, data);
            |p.words| == |m.words| && p.locked == m.locked && (a < |m.words| ==> p.words[a] == m.words[a])
  {}

  lemma LaterTakes(m: Array, w: nat, data: seq<word>, d: nat, n: nat, k: nat)
    requires d + n <= |data| && k < n
    ensures TakesNth(m.Programmed(w, data[..d]), w + d, data[d..][..n], k) <==> TakesNth(m, w, data[..d + n], d + k)
  {
    hide Array.Programmed, Cleared;
    var p, x, a := m.Programmed(w, data[..d]), data[d + k], w + (d + k);
    Untouched(m, w, data[..d], a);
    assert p.Takes(a, x) <==> m.Takes(a, x);
    assert data[d..][..n][k] == x && data[..d + n][d + k] == x && w + d + k == a;
  }

  lemma TakenTwice(m: Array, w: nat, data: seq<word>, d: nat, n: nat)
    requires d + n <= |data|
    ensures AllTaken(m, w, data[..d + n]) <==>
            AllTaken(m, w, data[..d]) && AllTaken(m.Programmed(w, data[..d]), w + d, data[d..][..n])
  {
    var p, both, next, at := m.Programmed(w, data[..d]), data[..d + n], data[d..][..n], w + d;
    forall k | 0 <= k < n ensures TakesNth(p, at, next, k) <==> TakesNth(m, w, both, d + k) {
      LaterTakes(m, w, data, d, n, k);
    }
    assert forall k | 0 <= k < d :: TakesNth(m, w, data[..d], k) <==> TakesNth(m, w, both, k);
    hide TakesNth, Array.Programmed, Cleared;
    if AllTaken(m, w, data[..d]) && AllTaken(p, at, next) {
      forall k | 0 <= k < d + n ensures TakesNth(m, w, both, k) {
        if k >= d {
          assert TakesNth(p, at, next, k - d);
        }
      }
    }
  }

  lemma UptoStart(s: Snapshot, w: nat, data: seq<word>)
    ensures Upto(s, s, w, data, 0)
  {
    assert s.flash.Programmed(w, data[..0]).words == s.flash.words;
  }

  lemma {:induction false} UptoNext(s0: Snapshot, s: Snapshot, s': Snapshot, w: nat, data: seq<word>, d: nat, n: nat)
    requires Upto(s0, s, w, data, d) && d < |data| && n == FirstPart(w + d, |data| - d)
    requires s'.flash == s.flash.Programmed(w + d, data[d..][..n]) && s'.log == s.log + [Part(w + d, n)]
    requires s'.error <==> s.error || !AllTaken(s.flash, w + d, data[d..][..n])
    ensures Upto(s0, s', w, data, d + n)
  {
    hide Array.Programmed, AllTaken;
    ProgrammedTwice(s0.flash, w, data, d, n);
    TakenTwice(s0.flash, w, data, d, n);
    var rest := Commits(w + d + n, |data| - d - n);
    assert s.log + ([Part(w + d, n)] + rest) == s.log + [Part(w + d, n)] + rest;
  }

  lemma UptoEnd(s0: Snapshot, s: Snapshot, w: nat, data: seq<word>)
    requires Upto(s0, s, w, data, |data|)
    ensures s.flash == s0.flash.Programmed(w, data) && s.log == s0.log + Commits(w, |data|)
    ensures s.error <==> s0.error || !AllTaken(s0.flash, w, data)
  {
    assert data[..|data|] == data && s.log + [] == s.log;
  }

  // ----- what the commits are

  ghost predicate CommitsWord(c: Commit, a: nat) {
    a / BLOCK_WORDS == c.block && a % BLOCK_WORDS in c.valid
  }

  lemma NextPart(at: nat, n: nat)
    requires 0 < n
    ensures 0 < FirstPart(at, n) <= n
    ensures FirstPart(at, n) < n ==> (at + FirstPart(at, n)) / BLOCK_WORDS == at / BLOCK_WORDS + 1
  {
    var q, r := at / BLOCK_WORDS, at % BLOCK_WORDS;
    assert at == BLOCK_WORDS * q + r;
  }

  /** Nonempty commits to consecutive blocks, the first of which is b. */
  ghost predicate Consecutive(cs: seq<Commit>, b: int) {
    forall i | 0 <= i < |cs| :: cs[i].block == b + i && cs[i].valid != {}
  }

  /** No block is committed twice: the commits go up block by block. */
  lemma {:induction false} CommitsOrdered(at: nat, n: nat)
    ensures Consecutive(Commits(at, n), at / BLOCK_WORDS)
    decreases n
  {
    hide Indices;
    if n > 0 {
      var k := FirstPart(at, n);
      var rest := Commits(at + k, n - k);
      NextPart(at, n);
      CommitsOrdered(at + k, n - k);
      assert at % BLOCK_WORDS in Part(at, k).valid;
      assert rest == [] || Consecutive(rest, at / BLOCK_WORDS + 1);
    }
  }

  /** A word is committed exactly when it is in the range. */
  lemma {:induction false} CommitsCover(at: nat, n: nat, a: nat)
    ensures (exists c :: c in Commits(at, n) && CommitsWord(c, a)) <==> at <= a < at + n
    decreases n
  {
    if n > 0 {
      var k := FirstPart(at, n);
      var c0, rest := Part(at, k), Commits(at + k, n - k);
      assert Commits(at, n) == [c0] + rest;
      InBlockPart(a, at, k);
      CommitsCover(at + k, n - k, a);
      assert c0 in Commits(at, n) && forall c :: c in Commits(at, n) <==> c == c0 || c in rest;
      if at + k <= a < at + n {
        var c :| c in rest && CommitsWord(c, a);
        assert c in Commits(at, n);
      }
      if at <= a < at + k {
        assert CommitsWord(c0, a);
      }
    }
  }

  // ----- what a status of 0 says

  /** The words of a range are these data. */
  ghost predicate Holds(m: Array, at: nat, data: seq<word>) {
    forall k | 0 <= k < |data| :: at + k < |m.words| && m.words[at + k] == data[k]
  }

  ghost predicate HoldsNth(m: Array, at: nat, data: seq<word>, k: int)
    requires 0 <= k < |data|
  {
    m.Writable(at + k) && m.words[at + k] == data[k]
  }

  ghost predicate AllHeld(m: Array, at: nat, data: seq<word>) {
    forall k | 0 <= k < |data| :: HoldsNth(m, at, data, k)
  }

  lemma NthTaken(m: Array, at: nat, data: seq<word>, k: nat)
    requires k < |data|
    ensures TakesNth(m, at, data, k) <==> HoldsNth(m.Programmed(at, data), at, data, k)
  {
    hide Cleared;
    assert m.Programmed(at, data).Writable(at + k) <==> m.Writable(at + k);
  }

  lemma HeldExactly(m: Array, at: nat, data: seq<word>)
    ensures AllHeld(m, at, data) <==> AllWritable(m, at, |data|) && Holds(m, at, data)
  {
    if AllHeld(m, at, data) {
      forall a: nat | at <= a < at + |data| ensures m.Writable(a) {
        assert HoldsNth(m, at, data, a - at);
      }
      forall k | 0 <= k < |data| ensures at + k < |m.words| && m.words[at + k] == data[k] {
        assert HoldsNth(m, at, data, k);
      }
    }
    if AllWritable(m, at, |data|) && Holds(m, at, data) {
      forall k | 0 <= k < |data| ensures HoldsNth(m, at, data, k) {
        assert m.Writable(at + k);
      }
    }
  }

  /** Programming meets no error exactly when the range is writable and holds the data
      afterwards. */
  lemma {:induction false} TakenExactly(m: Array, at: nat, data: seq<word>)
    ensures var p := m.Programmed(at, data);
            AllTaken(m, at, data) <==> AllWritable(p, at, |data|) && Holds(p, at, data)
  {
    var p := m.Programmed(at, data);
    forall k | 0 <= k < |data| ensures TakesNth(m, at, data, k) <==> HoldsNth(p, at, data, k) {
      NthTaken(m, at, data, k);
    }
    hide TakesNth, HoldsNth;
    assert AllTaken(m, at, data) <==> AllHeld(p, at, data);
    HeldExactly(p, at, data);
  }

  /** Erased, writable flash takes any data. */
  lemma ErasedTakesData(m: Array, at: nat, data: seq<word>)
    requires AllWritable(m, at, |data|)
    requires forall a | at <= a < at + |data| && a < |m.words| :: m.words[a] == 0xFFFF_FFFF
    ensures AllTaken(m, at, data) && Holds(m.Programmed(at, data), at, data)
  {
    forall k | 0 <= k < |data| ensures TakesNth(m, at, data, k) {
      AllOnes(data[k]);
      assert m.Writable(at + k) && m.words[at + k] == 0xFFFF_FFFF;
    }
    TakenExactly(m, at, data);
  }

  lemma AllOnes(w: word)
    ensures 0xFFFF_FFFF & w == w
  {}

  /** A word that already holds 0 bits does not take a 1 there: the call fails and the word
      stays. */
  lemma {:induction false} ZeroBitRefused()
    ensures var m := Array([0], {});
            m.Writable(0) && !AllTaken(m, 0, [1]) && m.Programmed(0, [1]).words == [0]
  {
    var m := Array([0], {});
    assert !TakesNth(m, 0, [1], 0);
    assert (0 as word) & 1 == 0;
  }
}

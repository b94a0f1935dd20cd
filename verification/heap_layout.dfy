/**
 * Address arithmetic of the fixed-width heap file (heap/main.py): a header
 * of HEADER_SIZE bytes, 4096-byte blocks, and records of RECORD_SIZE bytes
 * addressed by a 1-based (block, slot) pointer.
 */
module HeapLayout {
  import opened Wrappers
  import opened Bytes
  import opened Struct
  import opened PointerCodec

  const BLOCK_SIZE: nat := 4096

  /** '=H H I I I 64s 64s 64s': block size, header size, record size, last pointer, free pointer, table name, created, updated. */
  const HEADER_STRUCTURE: Format := [H, H, I, I, I, S(64), S(64), S(64)]

  /** '=H I I 9s 9s 6s': deletion flag, age, year, education, city, gender. */
  const TABLE_STRUCTURE: Format := [H, I, I, S(9), S(9), S(6)]

  const HEADER_SIZE: nat := 208
  const RECORD_SIZE: nat := 34

  /** The sizes `struct.calcsize` gives for the two formats (a record is 34 bytes, not 36). */
  lemma FormatSizes()
    ensures CalcSize(HEADER_STRUCTURE) == HEADER_SIZE
    ensures CalcSize(TABLE_STRUCTURE) == RECORD_SIZE
  {
    assert CalcSize([S(64)]) == 64;
    assert CalcSize([S(64), S(64)]) == 128;
    assert CalcSize(HEADER_STRUCTURE[5..]) == 192;
    assert CalcSize(HEADER_STRUCTURE[4..]) == 196;
    assert CalcSize(HEADER_STRUCTURE[3..]) == 200;
    assert CalcSize(HEADER_STRUCTURE[2..]) == 204;
    assert CalcSize(HEADER_STRUCTURE[1..]) == 206;
    assert CalcSize([S(6)]) == 6;
    assert CalcSize(TABLE_STRUCTURE[4..]) == 15;
    assert CalcSize(TABLE_STRUCTURE[3..]) == 24;
    assert CalcSize(TABLE_STRUCTURE[2..]) == 28;
    assert CalcSize(TABLE_STRUCTURE[1..]) == 32;
  }

  /**
   * `calculate_offset(pointer, null)`: the byte position of a slot. A block
   * or slot below 1 is reported as corruption unless the `null` flag
   * (here `allowNull`) is set.
   */
  function CalculateOffset(p: Pointer, allowNull: bool): (r: Result<int>)
    ensures r.Err? <==> !allowNull && (p.block < 1 || p.offset < 1)
    ensures r.Err? ==> r.error == Corrupted
    ensures r.Ok? && p.block >= 1 && p.offset >= 1 ==> r.value >= HEADER_SIZE
  {
    var block := p.block - 1;
    var register := p.offset - 1;
    if (block < 0 || register < 0) && !allowNull then Err(Corrupted)
    else Ok(HEADER_SIZE + block * BLOCK_SIZE + register * RECORD_SIZE)
  }

  /** The position `calculate_offset` gives, with the corruption check switched off. */
  function LinearOffset(p: Pointer): int {
    CalculateOffset(p, true).value
  }

  /** Bytes of block `block` available to records: the header takes its share of block 1 only. */
  function Capacity(block: int): nat {
    if block == 1 then BLOCK_SIZE - HEADER_SIZE else BLOCK_SIZE
  }

  /** Space left in the pointer's block after its slot, as `next_register_pointer` computes it. */
  function Remaining(p: Pointer): int {
    Capacity(p.block) - RECORD_SIZE * p.offset
  }

  /**
   * `next_register_pointer(block, register)`: the slot after `p`, rolling to
   * slot 1 of the next block when fewer than RECORD_SIZE bytes remain.
   */
  function NextRegisterPointer(p: Pointer): (r: Result<Pointer>)
    ensures r.Err? ==> r.error == StructError
    ensures r.Err? <==> Remaining(p) < RECORD_SIZE && p.block == 0xFFFF
    ensures r.Ok? && Remaining(p) >= RECORD_SIZE ==> r.value == Pointer(p.block, p.offset + 1)
    ensures r.Ok? && Remaining(p) < RECORD_SIZE ==> r.value == Pointer(p.block + 1, 1)
  {
    var space := Remaining(p);
    var newBlock := if space >= RECORD_SIZE then p.block as int else p.block as int + 1;
    var newRegister := if newBlock == p.block as int then p.offset as int + 1 else 1;
    MakePointer(newBlock, newRegister)
  }

  /** A slot that lies wholly inside its block's capacity. */
  predicate WellFormed(p: Pointer) {
    p.block >= 1 && p.offset >= 1 && RECORD_SIZE * p.offset <= Capacity(p.block)
  }

  /** The first data slot, `(1, 1)`, sits just after the header. */
  lemma FirstSlotOffset()
    ensures WellFormed(Pointer(1, 1))
    ensures CalculateOffset(Pointer(1, 1), false) == Ok(HEADER_SIZE)
  {
  }

  /** Consecutive slots are RECORD_SIZE bytes apart, and the same slot of consecutive blocks BLOCK_SIZE bytes apart. */
  lemma OffsetSteps(p: Pointer)
    requires p.block >= 1 && p.offset >= 1
    ensures p.offset < 0xFFFF ==> LinearOffset(Pointer(p.block, p.offset + 1)) == LinearOffset(p) + RECORD_SIZE
    ensures p.block < 0xFFFF ==> LinearOffset(Pointer(p.block + 1, p.offset)) == LinearOffset(p) + BLOCK_SIZE
  {
  }

  /** The block and slot of a well-formed pointer can be read back from its offset. */
  lemma OffsetInverse(p: Pointer)
    requires WellFormed(p)
    ensures (LinearOffset(p) - HEADER_SIZE) / BLOCK_SIZE == p.block - 1
    ensures (LinearOffset(p) - HEADER_SIZE) % BLOCK_SIZE / RECORD_SIZE == p.offset - 1
  {
    var d := LinearOffset(p) - HEADER_SIZE;
    var m := (p.offset - 1) * RECORD_SIZE;
    assert d == (p.block - 1) * BLOCK_SIZE + m && 0 <= m < BLOCK_SIZE;
    assert d % BLOCK_SIZE == m;
  }

  /** A well-formed slot of block 1 ends at or before the end of the first page. */
  lemma FirstBlockSlotInPage(p: Pointer)
    requires WellFormed(p) && p.block == 1
    ensures LinearOffset(p) + RECORD_SIZE <= BLOCK_SIZE
  {
  }

  /** Distinct well-formed slots occupy disjoint byte ranges. */
  lemma SlotsDisjoint(p: Pointer, q: Pointer)
    requires WellFormed(p) && WellFormed(q) && p != q
    ensures LinearOffset(p) + RECORD_SIZE <= LinearOffset(q) || LinearOffset(q) + RECORD_SIZE <= LinearOffset(p)
  {
    if p.block < q.block {
      assert LinearOffset(q) - LinearOffset(p) >= BLOCK_SIZE + RECORD_SIZE - RECORD_SIZE * p.offset;
    } else if q.block < p.block {
      assert LinearOffset(p) - LinearOffset(q) >= BLOCK_SIZE + RECORD_SIZE - RECORD_SIZE * q.offset;
    }
  }

  /** The next slot is well formed and starts at or after the end of the current one. */
  lemma NextSlotFollows(p: Pointer)
    requires WellFormed(p)
    requires NextRegisterPointer(p).Ok?
    ensures WellFormed(NextRegisterPointer(p).value)
    ensures LinearOffset(NextRegisterPointer(p).value) >= LinearOffset(p) + RECORD_SIZE
  {
  }

  /** The pointer after `n` record writes starting from `p`. */
  function Advance(p: Pointer, n: nat): Result<Pointer>
    decreases n
  {
    if n == 0 then Ok(p)
    else
      var q :- NextRegisterPointer(p);
      Advance(q, n - 1)
  }

  lemma {:induction false} AdvanceSplit(p: Pointer, a: nat, b: nat)
    ensures Advance(p, a).Ok? ==> Advance(p, a + b) == Advance(Advance(p, a).value, b)
    ensures Advance(p, a).Err? ==> Advance(p, a + b).Err?
    decreases a
  {
    if a > 0 && NextRegisterPointer(p).Ok? {
      assert a + b - 1 == (a - 1) + b;
      AdvanceSplit(NextRegisterPointer(p).value, a - 1, b);
    }
  }

  /** Every slot reached from a well-formed slot is well formed and lies past all the records written before it. */
  lemma {:induction false} AdvanceFrom(p: Pointer, n: nat)
    requires WellFormed(p)
    requires Advance(p, n).Ok?
    ensures WellFormed(Advance(p, n).value)
    ensures LinearOffset(Advance(p, n).value) >= LinearOffset(p) + RECORD_SIZE * n
    decreases n
  {
    if n > 0 {
      var q := NextRegisterPointer(p).value;
      NextSlotFollows(p);
      AdvanceFrom(q, n - 1);
    }
  }

  /** Records written one after another from `(1, 1)` never overlap, and those in block 1 stay inside the first page. */
  lemma SuccessiveSlotsDisjoint(i: nat, j: nat)
    requires i < j
    requires Advance(Pointer(1, 1), j).Ok?
    ensures Advance(Pointer(1, 1), i).Ok?
    ensures LinearOffset(Advance(Pointer(1, 1), i).value) + RECORD_SIZE <= LinearOffset(Advance(Pointer(1, 1), j).value)
    ensures Advance(Pointer(1, 1), j).value.block == 1 ==> LinearOffset(Advance(Pointer(1, 1), j).value) + RECORD_SIZE <= BLOCK_SIZE
  {
    var start := Pointer(1, 1);
    AdvanceSplit(start, i, j - i);
    var p := Advance(start, i).value;
    AdvanceFrom(start, i);
    AdvanceFrom(p, j - i);
    AdvanceFrom(start, j);
    var q := Advance(start, j).value;
    if q.block == 1 {
      FirstBlockSlotInPage(q);
    }
  }

  lemma {:induction false} FirstBlockRun(s: nat, k: nat)
    requires 1 <= s && s + k <= 114
    ensures Advance(Pointer(1, s), k) == Ok(Pointer(1, s + k))
    decreases k
  {
    if k > 0 {
      assert NextRegisterPointer(Pointer(1, s)) == Ok(Pointer(1, s + 1));
      FirstBlockRun(s + 1, k - 1);
    }
  }

  /** Block 1 holds exactly 114 records; the 115th write goes to slot 1 of block 2. */
  lemma FirstBlockHolds114()
    ensures Advance(Pointer(1, 1), 113) == Ok(Pointer(1, 114))
    ensures Advance(Pointer(1, 1), 114) == Ok(Pointer(2, 1))
  {
    FirstBlockRun(1, 113);
    AdvanceSplit(Pointer(1, 1), 113, 1);
    assert NextRegisterPointer(Pointer(1, 114)) == Ok(Pointer(2, 1));
  }
}

/**
 * The memory space of `pyagcom/machine.py`: erasable memory followed by fixed
 * memory in one list of cells, with reads of the low addresses going through
 * the rules of the memory-mapped registers.
 */
module Machine {
  import opened Wrappers

  const ERASE_SIZE: nat := 0x800    // octal 4000
  const FIXED_SIZE: nat := 0x9000   // octal 110000
  const SIZE: nat := ERASE_SIZE + FIXED_SIZE

  /** Highest address handled by the register rules (octal 23). */
  const LAST_REGISTER: nat := 0x13

  /** What `MemoryException` reports: the fixed image given is longer than fixed memory. */
  datatype MemoryError = FixedTooLong(length: nat)

  /** `trim`: the low 15 bits of a value (Python's `v & 0x7FFF`, which is the floor remainder). */
  function Trim(v: int): (r: int)
    ensures 0 <= r < 0x8000
    ensures 0 <= v < 0x8000 ==> r == v
    ensures (v - r) % 0x8000 == 0
  {
    v % 0x8000
  }

  /** The memory state: one cell per address, erasable memory first. */
  datatype Memory = Memory(state: seq<int>)
  {
    predicate Valid()
    {
      |state| == SIZE
    }

    /**
     * `register_get`: the low 15 bits of cells 0 and 2, cell 4 plus cell 3
     * shifted right by 8 at address 6 (`>> 8` is floor division, as is `/`
     * by a positive divisor here), 0 at address 7, the cell itself elsewhere.
     */
    function RegisterGet(n: nat): (r: int)
      requires n < |state|
      ensures n == 0 || n == 2 ==> 0 <= r < 0x8000 && (state[n] - r) % 0x8000 == 0
      ensures n == 6 ==> r == state[4] + state[3] / 0x100
      ensures n == 7 ==> r == 0
      ensures n !in {0, 2, 6, 7} ==> r == state[n]
    {
      if n == 0 || n == 2 then Trim(state[n])
      else if n == 6 then state[4] + state[3] / 0x100
      else if n == 7 then 0
      else state[n]
    }

    /** `__getitem__`: register rules up to octal 23, the plain cell above. */
    function Get(n: nat): (r: int)
      requires n < |state|
      ensures n > LAST_REGISTER ==> r == state[n]
      ensures n == 0 || n == 2 ==>
        0 <= r < 0x8000 && (state[n] - r) % 0x8000 == 0 &&
        (0 <= state[n] < 0x8000 ==> r == state[n])
      ensures n == 6 ==> r == state[4] + state[3] / 0x100
      ensures n == 6 && 0 <= state[3] < 0x100 ==> r == state[4]
      ensures n == 7 ==> r == 0
      ensures n !in {0, 2, 6, 7} ==> r == state[n]
    {
      if n <= LAST_REGISTER then RegisterGet(n) else state[n]
    }
  }

  /**
   * `Memory.__init__`: refuses a fixed image longer than fixed memory;
   * otherwise erasable memory is all zeros and fixed memory is the image
   * padded with zeros to its full size.
   */
  function NewMemory(fixed: seq<int>): (r: Result<Memory, MemoryError>)
    ensures r.Err? <==> |fixed| > FIXED_SIZE
    ensures r.Err? ==> r.error == FixedTooLong(|fixed|)
    ensures r.Ok? ==> r.value.Valid()
    ensures r.Ok? ==> forall n :: 0 <= n < ERASE_SIZE ==> r.value.state[n] == 0
    ensures r.Ok? ==> r.value.state[ERASE_SIZE..ERASE_SIZE + |fixed|] == fixed
    ensures r.Ok? ==> forall n :: ERASE_SIZE + |fixed| <= n < SIZE ==> r.value.state[n] == 0
  {
    if |fixed| > FIXED_SIZE then Err(FixedTooLong(|fixed|))
    else Ok(Memory(seq(ERASE_SIZE, _ => 0) + fixed + seq(FIXED_SIZE - |fixed|, _ => 0)))
  }

  /**
   * Reading a new memory gives 0 in erasable memory (registers included:
   * cells 3 and 4 are 0, so address 6 reads 0 too), the image in the fixed
   * region and 0 after the image.
   */
  lemma ReadNewMemory(fixed: seq<int>, n: nat)
    requires |fixed| <= FIXED_SIZE && n < SIZE
    ensures NewMemory(fixed).Ok?
    ensures var m := NewMemory(fixed).value;
      m.Get(n) == if ERASE_SIZE <= n < ERASE_SIZE + |fixed| then fixed[n - ERASE_SIZE] else 0
  {
  }
}

/**
 * Four-level paging as the processor sees it (Intel SDM Volume 3A, sections 4.5 and 4.6):
 * page-table entries, physical memory as a map from frames to tables, and the table walk.
 *
 * Addresses are counted in pages here: a frame is a physical address divided by PAGE_SIZE,
 * and a page is the 36-bit number formed by the four 9-bit indices of a virtual address.
 */
module Paging {
  const PAGE_SIZE: nat := 4096
  const PT_LENGTH: nat := 512
  const PT_LAST_LEVEL: nat := 3
  /** Bits 12 to 51 of an entry hold the frame. */
  const FRAME_LIMIT: nat := 0x100_0000_0000
  const PAGE_LIMIT: nat := 0x10_0000_0000

  type Frame = f: nat | f < FRAME_LIMIT

  datatype Flags = Flags(strict: bool, user: bool, writable: bool, executable: bool)

  const WRITE_ONLY := Flags(false, false, true, false)

  /** The bits the memory manager interprets; `other` stands for the remaining ones. */
  datatype Pte = Pte(present: bool, writable: bool, user: bool, noExecute: bool, frame: Frame, other: nat)

  const BLANK := Pte(false, false, false, false, 0, 0)

  type Table = t: seq<Pte> | |t| == PT_LENGTH witness seq(PT_LENGTH, _ => BLANK)

  function BlankTable(): Table {
    seq(PT_LENGTH, _ => BLANK)
  }

  type Memory = map<nat, Table>

  function Fetch(m: Memory, frame: nat): Table {
    if frame in m then m[frame] else BlankTable()
  }

  /** `set_pte`: every bit not named by the flags is cleared and the address is masked to 40 bits. */
  function SetPte(frame: nat, flags: Flags): (e: Pte)
    ensures e.present && (frame < FRAME_LIMIT ==> e.frame == frame) && e.other == 0
    ensures Granted(e) == Reached(frame % FRAME_LIMIT, flags.writable, flags.user, !flags.executable)
  {
    Pte(true, flags.writable, flags.user, !flags.executable, frame % FRAME_LIMIT, 0)
  }

  lemma FrameMasked(frame: nat, flags: Flags)
    ensures SetPte(frame, flags).frame == frame % 0x100_0000_0000
  {
  }

  /** `update_pt_pte_flags`, for entries that point to a table. */
  function Retag(e: Pte, flags: Flags): (r: Pte)
    ensures r.present == e.present && r.frame == e.frame && r.other == e.other
    ensures Granted(r) == Reached(e.frame, flags.writable, flags.user, false)
  {
    e.(writable := flags.writable, user := flags.user, noExecute := false)
  }

  /** What the walk of a virtual page yields: nothing, or a frame and the rights combined over all levels. */
  datatype Walked = Fault | Reached(frame: nat, writable: bool, user: bool, noExecute: bool)

  /** The rights a single entry grants. */
  function Granted(e: Pte): Walked {
    Reached(e.frame, e.writable, e.user, e.noExecute)
  }

  /** A list of table indices, outermost first. */
  datatype Path = End | At(index: nat, rest: Path)

  predicate IsPath(path: Path, length: nat) {
    match path
    case End => length == 0
    case At(i, rest) => length > 0 && i < PT_LENGTH && IsPath(rest, length - 1)
  }

  function Through(e: Pte, w: Walked): Walked {
    match w
    case Fault => Fault
    case Reached(f, wr, us, nx) => Reached(f, e.writable && wr, e.user && us, e.noExecute || nx)
  }

  function Walk(m: Memory, table: nat, path: Path): Walked
    decreases path
  {
    match path
    case End => Fault
    case At(i, rest) =>
      if i >= PT_LENGTH || !Fetch(m, table)[i].present then Fault
      else if rest.End? then Granted(Fetch(m, table)[i])
      else Through(Fetch(m, table)[i], Walk(m, Fetch(m, table)[i].frame, rest))
  }
}

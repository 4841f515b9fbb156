/**
 The data model of the page tables: entries, frames and the walk that the
 processor (and the kernel, through the recursive mapping) performs over them.

 A path is the sequence of table indices a walk uses, top level first.  The
 tables are four levels deep, so a path has at most four elements and a path of
 length four selects a page.
 */
module PageTables {
  import opened Basics

  const LEVELS: nat := 4
  const ENTRIES: nat := 512
  // Entries 256..511 of the top table map the kernel half.
  const USER_ENTRIES: nat := 256
  // The top-table entry that maps the top table itself.
  const RECURSIVE_ENTRY: nat := 511

  datatype Option<+T> = None | Some(value: T)

  /** A page-table entry: the flags the memory subsystem uses and the frame
      number stored in the address bits. */
  datatype Entry = Entry(
    frame: nat,
    present: bool,
    writable: bool,
    user: bool,
    managed: bool,
    cow: bool,
    wasWritable: bool,
    noExecute: bool)
  {
    /** The code's own notion of a writable entry, copy-on-write or not. */
    predicate EffectivelyWritable() {
      writable || (cow && wasWritable)
    }

    /** The entry of a table takes no right away from the pages below it but user access. */
    predicate PassesOn() {
      EffectivelyWritable() && !noExecute
    }

    /** What `markAsCoW` does to a present entry. */
    function Mark(): Entry {
      if cow then this else this.(wasWritable := writable, writable := false, cow := true)
    }

    /** What the fault handler does to the entry it repoints. */
    function Resolve(target: nat): Entry {
      this.(frame := target, cow := false, writable := wasWritable)
    }
  }

  const EMPTY: Entry := Entry(0, false, false, false, false, false, false, false)

  /** A physical frame holds a page table or page contents. */
  datatype Frame = Table(es: seq<Entry>) | Data(bytes: seq<bv8>)

  predicate IsTable(mem: seq<Frame>, t: nat) {
    t < |mem| && mem[t].Table? && |mem[t].es| == ENTRIES
  }

  predicate IsData(mem: seq<Frame>, f: nat) {
    f < |mem| && mem[f].Data? && |mem[f].bytes| == PAGE_SIZE
  }

  /** The present entry at index i of table t, if there is one. */
  function Lookup(mem: seq<Frame>, t: nat, i: nat): Option<Entry> {
    if IsTable(mem, t) && i < ENTRIES && mem[t].es[i].present then Some(mem[t].es[i]) else None
  }

  /** The table or page that path p reaches from table t. */
  function Walk(mem: seq<Frame>, t: nat, p: seq<nat>): Option<nat>
    decreases |p|, 0
  {
    if p == [] then Some(t) else
      match Ent(mem, t, p)
      case None => None
      case Some(e) => Some(e.frame)
  }

  /** The entry that path p selects from table t. */
  function Ent(mem: seq<Frame>, t: nat, p: seq<nat>): Option<Entry>
    requires p != []
    decreases |p| - 1, 1
  {
    match Walk(mem, t, p[..|p| - 1])
    case None => None
    case Some(u) => Lookup(mem, u, p[|p| - 1])
  }

  /** Paths through the user half of an address space. */
  predicate UserPath(p: seq<nat>) {
    |p| <= LEVELS && (p != [] ==> p[0] < USER_ENTRIES)
  }

  lemma WalkSnoc(mem: seq<Frame>, t: nat, p: seq<nat>, i: nat)
    ensures Ent(mem, t, p + [i]) == (match Walk(mem, t, p) case None => None case Some(u) => Lookup(mem, u, i))
  {
    assert (p + [i])[..|p + [i]| - 1] == p;
  }

  lemma {:induction false} WalkAppend(mem: seq<Frame>, t: nat, p: seq<nat>, p': seq<nat>)
    ensures Walk(mem, t, p + p') == (match Walk(mem, t, p) case None => None case Some(u) => Walk(mem, u, p'))
    decreases |p'|
  {
    if p' == [] {
      assert p + p' == p;
    } else {
      var front, i := p'[..|p'| - 1], p'[|p'| - 1];
      assert p + p' == (p + front) + [i] && p' == front + [i];
      WalkAppend(mem, t, p, front);
      WalkSnoc(mem, t, p + front, i);
      match Walk(mem, t, p)
      case None =>
      case Some(u) => WalkSnoc(mem, u, front, i);
    }
  }

  /** A walk that succeeds succeeds on every prefix of its path. */
  lemma WalkPrefix(mem: seq<Frame>, t: nat, p: seq<nat>, k: nat)
    requires k <= |p| && Walk(mem, t, p).Some?
    ensures Walk(mem, t, p[..k]).Some?
    ensures forall i :: 0 <= i < |p| ==> p[i] < ENTRIES
  {
    forall i | 0 <= i < |p| ensures p[i] < ENTRIES && Walk(mem, t, p[..i]).Some? {
      assert p == p[..i + 1] + p[i + 1..];
      WalkAppend(mem, t, p[..i + 1], p[i + 1..]);
      assert p[..i + 1] == p[..i] + [p[i]];
      WalkSnoc(mem, t, p[..i], p[i]);
    }
    assert p[..|p|] == p;
  }
}

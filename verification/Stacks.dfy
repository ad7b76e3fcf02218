// The two stack arrays of the VM and the helpers that move their pointers
// (core.cpp). The interpreter and the scheduler share an object of this class.
module Stacks {
  import opened Arith
  import opened Errors
  import opened Semantics

  class VmStacks {
    const DS: array<Cell>
    const RS: array<Cell>
    var sp: nat
    var rp: nat
    var fp: Option<nat>

    ghost predicate Valid()
      reads this
    {
      && DS.Length == DS_SIZE && RS.Length == RS_SIZE && DS != RS
      && sp <= DS_SIZE && rp <= RS_SIZE
      && (fp.Some? ==> fp.value <= RS_SIZE)
    }

    ghost function Ds(): seq<Cell>
      requires Valid()
      reads this, DS
    {
      DS[..sp]
    }

    ghost function Rs(): seq<Cell>
      requires Valid()
      reads this, RS
    {
      RS[..rp]
    }

    constructor ()
      ensures Valid() && fresh(DS) && fresh(RS)
      ensures Ds() == [] && Rs() == [] && fp == None
    {
      DS := new Cell[DS_SIZE];
      RS := new Cell[RS_SIZE];
      sp, rp, fp := 0, 0, None;
    }

    method DsPush(v: Cell) returns (e: int)
      requires Valid()
      modifies `sp, DS
      ensures Valid()
      ensures if old(|Ds()|) >= DS_SIZE then e == STACK_OVERFLOW && Ds() == old(Ds())
              else e == OK && Ds() == old(Ds()) + [v]
    {
      if sp >= DS_SIZE { return STACK_OVERFLOW; }
      DS[sp] := v;
      sp := sp + 1;
      e := OK;
    }

    method DsPop() returns (e: int, v: Cell)
      requires Valid()
      modifies `sp
      ensures Valid()
      ensures if old(|Ds()|) == 0 then e == STACK_UNDERFLOW && Ds() == old(Ds())
              else e == OK && v == Top(old(Ds()), 0) && Ds() == Cut(old(Ds()), 1)
    {
      if sp <= 0 { return STACK_UNDERFLOW, 0; }
      sp := sp - 1;
      e, v := OK, DS[sp];
    }

    method DsPeek(i: nat) returns (e: int, v: Cell)
      requires Valid()
      ensures if |Ds()| <= i then e == STACK_UNDERFLOW else e == OK && v == Top(Ds(), i)
    {
      if sp - 1 - i < 0 { return STACK_UNDERFLOW, 0; }
      e, v := OK, DS[sp - 1 - i];
    }

    /** Successive pops, x first. With too few operands they drain the stack. */
    method DsPop2() returns (e: int, x: Cell, y: Cell)
      requires Valid()
      modifies `sp
      ensures Valid()
      ensures if old(|Ds()|) < 2 then e == STACK_UNDERFLOW && Ds() == []
              else e == OK && x == Top(old(Ds()), 0) && y == Top(old(Ds()), 1) && Ds() == Cut(old(Ds()), 2)
    {
      y := 0;
      e, x := DsPop();
      if e != OK { return; }
      e, y := DsPop();
    }

    method DsPop4() returns (e: int, x: Cell, y: Cell, z: Cell, w: Cell)
      requires Valid()
      modifies `sp
      ensures Valid()
      ensures if old(|Ds()|) < 4 then e == STACK_UNDERFLOW && Ds() == []
              else
                && e == OK && x == Top(old(Ds()), 0) && y == Top(old(Ds()), 1)
                && z == Top(old(Ds()), 2) && w == Top(old(Ds()), 3) && Ds() == Cut(old(Ds()), 4)
    {
      z, w := 0, 0;
      e, x, y := DsPop2();
      if e != OK { return; }
      e, z, w := DsPop2();
    }

    method RsPush(v: Cell) returns (e: int)
      requires Valid()
      modifies `rp, RS
      ensures Valid()
      ensures if old(|Rs()|) >= RS_SIZE then e == STACK_OVERFLOW && Rs() == old(Rs())
              else e == OK && Rs() == old(Rs()) + [v]
    {
      if rp >= RS_SIZE { return STACK_OVERFLOW; }
      RS[rp] := v;
      rp := rp + 1;
      e := OK;
    }

    method RsPop() returns (e: int, v: Cell)
      requires Valid()
      modifies `rp
      ensures Valid()
      ensures if old(|Rs()|) == 0 then e == STACK_UNDERFLOW && Rs() == old(Rs())
              else e == OK && v == Top(old(Rs()), 0) && Rs() == Cut(old(Rs()), 1)
    {
      if rp <= 0 { return STACK_UNDERFLOW, 0; }
      rp := rp - 1;
      e, v := OK, RS[rp];
    }

    method RsPeek(i: nat) returns (e: int, v: Cell)
      requires Valid()
      ensures if |Rs()| <= i then e == STACK_UNDERFLOW else e == OK && v == Top(Rs(), i)
    {
      if rp - 1 - i < 0 { return STACK_UNDERFLOW, 0; }
      e, v := OK, RS[rp - 1 - i];
    }

    /** The check before every access to local idx. */
    method FindLocal(idx: nat) returns (e: int, slot: nat)
      requires Valid()
      ensures if fp.None? then e == INVALID_ARG
              else if fp.value + idx >= |Rs()| then e == STACK_UNDERFLOW
              else e == OK && slot == fp.value + idx && slot < rp
    {
      slot := 0;
      match fp {
        case None => e := INVALID_ARG;
        case Some(base) =>
          if base + idx >= rp { return STACK_UNDERFLOW, 0; }
          e, slot := OK, base + idx;
      }
    }

    method SetLocal(slot: nat, v: Cell)
      requires Valid() && slot < rp
      modifies RS
      ensures Valid() && Rs() == old(Rs())[slot := v]
    {
      RS[slot] := v;
    }
  }
}

/** `clint_t`: the operations of ClintModel.dfy, performed in place. */
module Clint {
  import opened Common
  import opened ClintModel

  class Clint {
    var mtime: reg_t
    const mtimecmp: array<reg_t>
    const mtip: array<bool>
    const msip: array<bool>

    ghost predicate Ok()
      reads this, mtimecmp, mtip, msip
    {
      mtip != msip && mtimecmp.Length == mtip.Length == msip.Length
    }

    ghost function View(): State
      reads this, mtimecmp, mtip, msip
    {
      State(mtime, mtimecmp[..], mtip[..], msip[..])
    }

    constructor (harts: nat)
      ensures Ok() && fresh(mtimecmp) && fresh(mtip) && fresh(msip)
      ensures mtimecmp.Length == harts && mtime == 0
      ensures forall i :: 0 <= i < harts ==> mtimecmp[i] == 0 && !mtip[i] && !msip[i]
    {
      mtime := 0;
      mtimecmp := new reg_t[harts](_ => 0);
      mtip := new bool[harts](_ => false);
      msip := new bool[harts](_ => false);
    }

    method Increment(inc: nat)
      requires Ok()
      modifies `mtime, mtip
      ensures Ok() && View() == ClintModel.Increment(old(View()), inc)
    {
      mtime := (mtime + inc) % WORD;
      for i := 0 to mtip.Length
        invariant forall k :: 0 <= k < i ==> (mtip[k] <==> mtime >= mtimecmp[k])
        modifies mtip
      {
        mtip[i] := mtime >= mtimecmp[i];
      }
      assert mtip[..] == Pending(mtime, mtimecmp[..]);
    }

    method Store(addr: nat, bytes: seq<byte>) returns (ok: bool)
      requires Ok()
      modifies `mtime, mtimecmp, mtip, msip
      ensures Ok()
      ensures ok == ClintModel.Store(old(View()), addr, bytes).Some?
      ensures View() == if ok then ClintModel.Store(old(View()), addr, bytes).value else old(View())
    {
      hide Flatten, Unflatten, WordAt, ToBytes, ClintModel.Increment;
      ok := true;
      match RegionOf(msip.Length, addr, |bytes|)
      case Msip =>
        for i := 0 to msip.Length
          invariant forall k :: 0 <= k < i ==> msip[k] == StoreMsip(old(msip[..]), addr, bytes)[k]
          invariant forall k :: i <= k < msip.Length ==> msip[k] == old(msip[..])[k]
          modifies msip
        {
          if addr <= 4 * i < addr + |bytes| {
            msip[i] := bytes[4 * i - addr] % 2 == 1;
          }
        }
        assert msip[..] == StoreMsip(old(msip[..]), addr, bytes);
        assert View() == old(View()).(msip := StoreMsip(old(msip[..]), addr, bytes));
        Increment(0);
      case Mtimecmp =>
        var memory := Copy(Flatten(mtimecmp[..]), addr - MTIMECMP_BASE, bytes);
        for i := 0 to mtimecmp.Length
          invariant forall k :: 0 <= k < i ==> mtimecmp[k] == Unflatten(memory, mtimecmp.Length)[k]
          modifies mtimecmp
        {
          mtimecmp[i] := Unflatten(memory, mtimecmp.Length)[i];
        }
        assert mtimecmp[..] == StoreMtimecmp(old(mtimecmp[..]), addr - MTIMECMP_BASE, bytes);
        assert View() == old(View()).(mtimecmp := mtimecmp[..]);
        Increment(0);
      case Mtime =>
        mtime := StoreMtime(mtime, addr - MTIME_BASE, bytes);
        assert View() == old(View()).(mtime := StoreMtime(old(mtime), addr - MTIME_BASE, bytes));
        Increment(0);
      case Outside => ok := false;
    }
  }
}

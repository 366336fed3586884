/**
 Exported objects (the /dev/cas<cache>-<core> block devices), the disks under them, the modules that own
 them, and the box in which an object waits while its owner module is replaced.
 */
module ExpObj {
  import opened Basics

  /** The block-device module itself (THIS_MODULE in its own files) and the modules that use it. */
  datatype Module = CasBd | Client(id: nat)

  /** What an object obtains from the kernel besides its disk, owner and minor slot. */
  datatype Resource = Name | TagSet | GenDisk | Registration | Attributes | HolderLink

  /** Stages of an operation at which the kernel may refuse. */
  datatype Stage =
    | PathCheck | ObjectMemory | PartitionsDeleted | NameCopied | ModulePinned | TagSetMade | LimitsSet
    | DiskAllocated | MinorTaken | GeometrySet | DiskAdded | AttributesMade | DiskLinked

  const DISK_NAME_LEN: nat := 32
  const UINT_MAX: nat := 0xFFFF_FFFF

  /** cas_disk: an exclusively opened block device shared by path. */
  class Disk {
    const path: string
    const whole: bool
    const maxParts: nat
    /** The gendisk flags that make the kernel look for partitions. */
    const scanFlags: set<nat>
    /** The gendisk as it was found. */
    const origFlags: set<nat>
    const origMinors: nat
    var flags: set<nat>
    var minors: nat
    var savedFlags: set<nat>
    var savedMinors: nat
    var hidden: bool
    var refcount: int
    /** References taken by cas_disk_open and not yet put. */
    ghost var holders: nat

    constructor (path: string, whole: bool, maxParts: nat, scanFlags: set<nat>, flags: set<nat>, minors: nat)
      ensures this.path == path && this.whole == whole && this.maxParts == maxParts && this.scanFlags == scanFlags
      ensures origFlags == flags && origMinors == minors
      ensures refcount == 1 && holders == 1 && !hidden && Intact()
    {
      this.path, this.whole, this.maxParts, this.scanFlags := path, whole, maxParts, scanFlags;
      origFlags, origMinors, this.flags, this.minors := flags, minors, flags, minors;
      savedFlags, savedMinors, hidden := {}, 0, false;
      refcount, holders := 1, 1;
    }

    /** What hiding took from the gendisk is exactly what was saved. */
    ghost predicate Intact()
      reads this`flags, this`minors, this`savedFlags, this`savedMinors, this`hidden
    {
      if hidden then
        whole && minors == 1 && savedMinors == origMinors
        && flags == origFlags - scanFlags && savedFlags == origFlags * scanFlags
      else
        flags == origFlags && minors == origMinors
    }

    /** Partitions are deleted when a whole disk that can have any is hidden for the first time. */
    ghost predicate DeletesParts()
      reads this`hidden
    {
      whole && !hidden && maxParts > 1
    }

    /** cas_disk_hide_parts: a whole disk ends up hidden unless its partitions could not be deleted. */
    method HideParts(refuse: bool) returns (ok: bool)
      requires Intact()
      modifies this`flags, this`minors, this`savedFlags, this`savedMinors, this`hidden
      ensures Intact()
      ensures ok <==> !refuse || !old(DeletesParts())
      ensures hidden == if ok then whole else old(hidden)
    {
      if !whole {
        return true;
      }
      if hidden {
        return true;
      }
      if maxParts > 1 && refuse {
        return false;
      }
      savedFlags := flags * scanFlags;
      savedMinors := minors;
      flags := flags - scanFlags;
      minors := 1;
      hidden := true;
      return true;
    }

    /** cas_disk_restore_parts gives the gendisk back as it was found. */
    method RestoreParts()
      requires Intact()
      modifies this`flags, this`minors, this`hidden
      ensures !hidden && flags == origFlags && minors == origMinors
    {
      if !hidden {
        return;
      }
      if whole {
        minors := savedMinors;
        flags := flags + savedFlags;
      }
      hidden := false;
    }
  }

  /** cas_exp_obj. */
  class ExportedObject {
    var dsk: Disk?
    var name: string
    var owner: Option<Module>
    var priv: nat
    var slot: nat
    var openers: nat
    var claimed: bool
    /** Whether `slot` is taken for this object, and what else it holds. */
    ghost var hasSlot: bool
    ghost var held: set<Resource>

    constructor ()
      ensures Blank() && openers == 0 && !claimed
    {
      dsk, name, owner, priv, slot, openers, claimed := null, "", None, 0, 0, 0, false;
      hasSlot, held := false, {};
    }

    /** Nothing would leak if the object were freed now. */
    ghost predicate Blank()
      reads this`dsk, this`owner, this`hasSlot, this`held
    {
      dsk == null && owner == None && !hasSlot && held == {}
    }

    /** Created and not yet dismantled. */
    ghost predicate Complete()
      reads this`dsk, this`owner, this`hasSlot, this`held
    {
      dsk != null && owner.Some? && hasSlot
      && held == {Name, TagSet, GenDisk, Registration, Attributes, HolderLink}
    }

    /** Dismantled and not yet destroyed. */
    ghost predicate Dismantled()
      reads this`dsk, this`owner, this`hasSlot, this`held
    {
      dsk != null && owner.Some? && !hasSlot && held == {Name}
    }

    /** A locked object has no opener. */
    ghost predicate LockOk()
      reads this`openers, this`claimed
    {
      openers <= UINT_MAX && (claimed ==> openers == 0)
    }

    method Open() returns (ok: bool)
      requires LockOk()
      modifies this`openers
      ensures LockOk()
      ensures ok <==> !claimed && old(openers) < UINT_MAX
      ensures openers == old(openers) + if ok then 1 else 0
    {
      ok := false;
      if !claimed {
        if openers == UINT_MAX {
          ok := false;
        } else {
          openers := openers + 1;
          ok := true;
        }
      }
    }

    method Close()
      requires LockOk() && openers > 0
      modifies this`openers
      ensures LockOk() && openers == old(openers) - 1
    {
      openers := openers - 1;
    }

    method Lock() returns (ok: bool)
      requires LockOk()
      modifies this`claimed
      ensures LockOk()
      ensures ok <==> openers == 0
      ensures claimed == (ok || old(claimed))
    {
      ok := false;
      if openers == 0 {
        claimed := true;
        ok := true;
      }
    }

    method Unlock()
      requires LockOk()
      modifies this`claimed
      ensures LockOk() && !claimed
    {
      claimed := false;
    }
  }

  ghost function OwnedBy(objects: set<ExportedObject>, m: Module): set<ExportedObject>
    reads objects`owner
  {
    set o | o in objects && o.owner == Some(m)
  }

  ghost function On(objects: set<ExportedObject>, d: Disk): set<ExportedObject>
    reads objects`dsk
  {
    set o | o in objects && o.dsk == d
  }

  lemma SizeWithout<T>(s: set<T>, x: T)
    ensures |s| == |s - {x}| + if x in s then 1 else 0
  {
    assert x in s ==> s == (s - {x}) + {x};
    assert x !in s ==> s == s - {x};
  }

  class Driver {
    /** Reference counts of the modules; `base` is what others hold. */
    var refs: map<Module, int>
    ghost const base: map<Module, int>
    /** The global disk list, the box and the minor slots in use. */
    var disks: seq<Disk>
    var box: seq<ExportedObject>
    var slots: set<nat>
    const slotMax: nat
    /** Every object that is allocated, those still being created included. */
    ghost var objects: set<ExportedObject>

    constructor (refs: map<Module, int>, slotMax: nat)
      requires CasBd in refs
      ensures Valid() && objects == {} && base == refs && this.refs == refs && this.slotMax == slotMax
      ensures disks == [] && box == [] && slots == {}
    {
      this.refs, base, this.slotMax := refs, refs, slotMax;
      disks, box, slots, objects := [], [], {}, {};
    }

    /** Each module is pinned once for every object it owns, on top of what others hold. */
    ghost predicate ModulesOk()
      reads this`refs, this`objects, objects`owner
    {
      refs.Keys == base.Keys && CasBd in refs
      && (forall m | m in refs :: refs[m] == base[m] + |OwnedBy(objects, m)|)
      && (forall o | o in objects && o.owner.Some? :: o.owner.value in refs)
    }

    /** The disk list holds each disk and each path once. */
    ghost predicate ListOk()
      reads this`disks
    {
      forall i, j :: 0 <= i < j < |disks| ==> disks[i] != disks[j] && disks[i].path != disks[j].path
    }

    /** Each listed disk is referenced by its holders and its objects; `extra` is about to lose one reference more. */
    ghost predicate CountsOk(extra: Disk?)
      reads this`disks, this`objects, objects`dsk, disks`refcount, disks`holders
    {
      (forall d | d in disks ::
         d.refcount > 0 && d.refcount == d.holders + |On(objects, d)| + if d == extra then 1 else 0)
      && (forall o | o in objects && o.dsk != null :: o.dsk in disks)
    }

    ghost predicate PartsOk()
      reads this`disks, disks`flags, disks`minors, disks`savedFlags, disks`savedMinors, disks`hidden
    {
      forall d | d in disks :: d.Intact()
    }

    /** The slots in use are those of the objects that have one, each of a different object. */
    ghost predicate SlotsOk()
      reads this`slots, this`objects, objects`hasSlot, objects`slot
    {
      (forall o | o in objects && o.hasSlot :: o.slot in slots && o.slot <= slotMax)
      && (forall s | s in slots :: exists o :: o in objects && o.hasSlot && o.slot == s)
      && (forall o, p | o in objects && p in objects && o.hasSlot && p.hasSlot && o.slot == p.slot :: o == p)
    }

    /** Objects in the box are complete and belong to the block-device module. */
    ghost predicate BoxOk()
      reads this`box, this`objects, objects`dsk, objects`owner, objects`hasSlot, objects`held
    {
      (forall i, j :: 0 <= i < j < |box| ==> box[i] != box[j])
      && (forall o | o in box :: o in objects && o.Complete() && o.owner == Some(CasBd))
    }

    ghost predicate LocksOk()
      reads this`objects, objects`openers, objects`claimed
    {
      forall o | o in objects :: o.LockOk()
    }

    ghost predicate Valid()
      reads this, objects, disks
    {
      ModulesOk() && ListOk() && CountsOk(null) && PartsOk() && SlotsOk() && BoxOk() && LocksOk()
    }

    // ------------------------------------------------------------ what one changed object changes

    /** Changing the owner of one object moves one pin. */
    twostate lemma OwnerChanged(o: ExportedObject)
      requires objects == old(objects) && o in objects
      requires forall p | p in objects && p != o :: p.owner == old(p.owner)
      ensures forall m ::
        |OwnedBy(objects, m)| + (if old(o.owner) == Some(m) then 1 else 0)
        == old(|OwnedBy(objects, m)|) + if o.owner == Some(m) then 1 else 0
    {
      forall m
        ensures |OwnedBy(objects, m)| + (if old(o.owner) == Some(m) then 1 else 0)
             == old(|OwnedBy(objects, m)|) + if o.owner == Some(m) then 1 else 0
      {
        assert OwnedBy(objects, m) - {o} == old(OwnedBy(objects, m)) - {o};
        SizeWithout(OwnedBy(objects, m), o);
        SizeWithout(old(OwnedBy(objects, m)), o);
      }
    }

    twostate lemma PinMoved(o: ExportedObject, new from: Module, new m: Module)
      requires old(ModulesOk()) && objects == old(objects) && o in objects
      requires from in old(refs) && m in old(refs) && old(o.owner) == Some(from)
      requires refs == Moved(old(refs), from, m) && o.owner == Some(m)
      requires forall p | p in objects && p != o :: p.owner == old(p.owner)
      ensures ModulesOk()
    {
      OwnerChanged(o);
    }

    lemma OwnerKnown(o: ExportedObject)
      requires ModulesOk() && o in objects && o.owner.Some?
      ensures o.owner.value in refs
    {
    }

    /** Changing the disk of one object moves one reference. */
    twostate lemma DiskChanged(o: ExportedObject)
      requires objects == old(objects) && disks == old(disks) && o in objects
      requires forall p | p in objects && p != o :: p.dsk == old(p.dsk)
      ensures forall d | d in disks ::
        |On(objects, d)| + (if old(o.dsk) == d then 1 else 0)
        == old(|On(objects, d)|) + if o.dsk == d then 1 else 0
    {
      forall d | d in disks
        ensures |On(objects, d)| + (if old(o.dsk) == d then 1 else 0)
             == old(|On(objects, d)|) + if o.dsk == d then 1 else 0
      {
        assert On(objects, d) - {o} == old(On(objects, d)) - {o};
        SizeWithout(On(objects, d), o);
        SizeWithout(old(On(objects, d)), o);
      }
    }

    /** What happens to an object outside the box does not concern the box. */
    twostate lemma BoxKept(o: ExportedObject)
      requires old(BoxOk()) && objects == old(objects) && box == old(box) && o !in box
      requires forall p | p in objects && p != o ::
        p.dsk == old(p.dsk) && p.owner == old(p.owner) && p.hasSlot == old(p.hasSlot) && p.held == old(p.held)
      ensures BoxOk()
    {
    }

    /** Allocating or freeing a blank object changes no module's pins. */
    twostate lemma BlankPinsNothing(new o: ExportedObject)
      requires old(ModulesOk()) && refs == old(refs) && o.owner == None
      requires objects == old(objects) + {o} || objects == old(objects) - {o}
      requires forall p | p in old(objects) :: p.owner == old(p.owner)
      ensures ModulesOk()
    {
      forall m
        ensures OwnedBy(objects, m) == old(OwnedBy(objects, m))
      {
      }
    }

    /** Nor any disk's references. */
    twostate lemma BlankRefersToNothing(new o: ExportedObject)
      requires old(CountsOk(null)) && disks == old(disks) && o.dsk == null
      requires objects == old(objects) + {o} || objects == old(objects) - {o}
      requires forall p | p in old(objects) :: p.dsk == old(p.dsk)
      requires forall d | d in disks :: d.refcount == old(d.refcount) && d.holders == old(d.holders)
      ensures CountsOk(null)
    {
      forall d | d in disks
        ensures On(objects, d) == old(On(objects, d))
      {
      }
    }

    /** The slots and the box do not see a blank object come. */
    twostate lemma BlankHoldsNothing(new o: ExportedObject)
      requires old(SlotsOk() && BoxOk()) && slots == old(slots) && box == old(box)
      requires o !in old(objects) && objects == old(objects) + {o} && o.Blank()
      requires forall p | p in old(objects) :: unchanged(p)
      ensures SlotsOk() && BoxOk()
    {
      forall s | s in slots
        ensures exists p :: p in objects && p.hasSlot && p.slot == s
      {
        var p :| p in old(objects) && old(p.hasSlot) && old(p.slot) == s;
        assert p in objects && p.hasSlot && p.slot == s;
      }
    }

    // ------------------------------------------------------------ the steps creation and destruction are made of

    method Alloc() returns (o: ExportedObject)
      requires Valid()
      modifies this`objects
      ensures Valid() && fresh(o) && o.Blank() && objects == old(objects) + {o}
    {
      hide ListOk, PartsOk, ModulesOk, CountsOk, SlotsOk, BoxOk;
      o := new ExportedObject();
      objects := objects + {o};
      BlankHoldsNothing(o);
      BlankPinsNothing(o);
      BlankRefersToNothing(o);
    }

    method Free(o: ExportedObject)
      requires Valid() && o in objects && o.Blank()
      modifies this`objects
      ensures Valid() && objects == old(objects) - {o}
    {
      hide ListOk, PartsOk, ModulesOk, CountsOk;
      objects := objects - {o};
      BlankPinsNothing(o);
      BlankRefersToNothing(o);
    }

    /** try_module_get, and the object is the module's. */
    method Pin(o: ExportedObject, m: Module, refuse: bool) returns (ok: bool)
      requires Valid() && o in objects && o.owner == None && m in refs
      modifies this`refs, o`owner
      ensures Valid() && ok == !refuse
      ensures ok ==> refs == old(refs)[m := old(refs[m]) + 1] && o.owner == Some(m)
      ensures !ok ==> refs == old(refs) && o.owner == None
    {
      hide ListOk, CountsOk, PartsOk, SlotsOk, LocksOk, OwnedBy;
      if refuse {
        return false;
      }
      assert o !in box;
      refs := refs[m := refs[m] + 1];
      o.owner := Some(m);
      BoxKept(o);
      hide BoxOk;
      OwnerChanged(o);
      return true;
    }

    /** module_put of the owner, and the object has none. */
    method Unpin(o: ExportedObject)
      requires Valid() && o in objects && o.owner.Some? && o !in box
      modifies this`refs, o`owner
      ensures Valid() && o.owner == None
      ensures refs == old(refs)[old(o.owner.value) := old(refs[o.owner.value]) - 1]
    {
      hide ListOk, CountsOk, PartsOk, SlotsOk, LocksOk, BoxOk, OwnedBy;
      var m := o.owner.value;
      refs := refs[m := refs[m] - 1];
      o.owner := None;
      BoxKept(o);
      OwnerChanged(o);
    }

    /** cas_disk_get, and the object is on the disk. */
    method GetDisk(o: ExportedObject, d: Disk)
      requires Valid() && o in objects && o.dsk == null && d in disks
      modifies o`dsk, d`refcount
      ensures Valid() && o.dsk == d && d.refcount == old(d.refcount) + 1
    {
      hide ModulesOk, ListOk, PartsOk, SlotsOk, LocksOk, On;
      assert o !in box;
      d.refcount := d.refcount + 1;
      o.dsk := d;
      BoxKept(o);
      hide BoxOk;
      DiskChanged(o);
    }

    /** cas_disk_put once its reference is accounted for: the last one takes the disk off the list and restores it. */
    method DropReference(d: Disk)
      requires ListOk() && PartsOk() && d in disks && CountsOk(d)
      modifies this`disks, d`refcount, d`flags, d`minors, d`hidden
      ensures ListOk() && PartsOk() && CountsOk(null)
      ensures d.refcount == old(d.refcount) - 1
      ensures d.refcount > 0 ==> disks == old(disks) && d.Intact() && d.hidden == old(d.hidden)
      ensures d.refcount == 0 ==> Unlisted(old(disks), disks, d) && d.flags == d.origFlags && d.minors == d.origMinors
    {
      hide On;
      d.refcount := d.refcount - 1;
      if d.refcount > 0 {
        return;
      }
      var i :| 0 <= i < |disks| && disks[i] == d;
      ghost var was := disks;
      disks := disks[..i] + disks[i + 1..];
      UnlistedAt(was, disks, i);
      NoObjectOn(d);
      d.RestoreParts();
    }

    lemma NoObjectOn(d: Disk)
      requires |On(objects, d)| == 0
      ensures forall o | o in objects :: o.dsk != d
    {
      forall o | o in objects
        ensures o.dsk != d
      {
        assert o.dsk == d ==> o in On(objects, d);
      }
    }

    method PutDisk(o: ExportedObject)
      requires Valid() && o in objects && o.dsk != null && o !in box
      modifies this`disks, o`dsk, o.dsk`refcount, o.dsk`flags, o.dsk`minors, o.dsk`hidden
      ensures Valid() && o.dsk == null
      ensures var d := old(o.dsk);
        d.refcount == old(o.dsk.refcount) - 1
        && (d.refcount > 0 ==> disks == old(disks) && d.hidden == old(o.dsk.hidden))
        && (d.refcount == 0 ==> Unlisted(old(disks), disks, d) && d.flags == d.origFlags && d.minors == d.origMinors)
    {
      hide ModulesOk, ListOk, PartsOk, SlotsOk, LocksOk, BoxOk, On;
      var d := o.dsk;
      o.dsk := null;
      BoxKept(o);
      DiskChanged(o);
      assert CountsOk(d);
      hide CountsOk;
      DropReference(d);
    }

    ghost predicate SlotFree()
      reads this`slots
    {
      exists s :: 0 <= s <= slotMax && s !in slots
    }

    /** _cas_exp_obj_set_dev_t: a slot nobody has, if there is one. */
    method TakeSlot(o: ExportedObject, refuse: bool) returns (ok: bool)
      requires Valid() && o in objects && !o.hasSlot
      modifies this`slots, o`slot, o`hasSlot
      ensures Valid() && o.hasSlot == ok
      ensures ok ==> o.slot !in old(slots) && o.slot <= slotMax && slots == old(slots) + {o.slot}
      ensures !ok ==> slots == old(slots)
      ensures ok <==> !refuse && old(SlotFree())
    {
      hide ModulesOk, ListOk, CountsOk, PartsOk, LocksOk;
      assert o !in box;
      if refuse || forall s :: 0 <= s <= slotMax ==> s in slots {
        return false;
      }
      var s :| 0 <= s <= slotMax && s !in slots;
      slots := slots + {s};
      o.slot, o.hasSlot := s, true;
      BoxKept(o);
      hide BoxOk;
      return true;
    }

    /** _cas_exp_obj_clear_dev_t. */
    method ReleaseSlot(o: ExportedObject)
      requires Valid() && o in objects && o.hasSlot && o !in box
      modifies this`slots, o`hasSlot
      ensures Valid() && !o.hasSlot && slots == old(slots) - {o.slot}
    {
      hide ModulesOk, ListOk, CountsOk, PartsOk, LocksOk, BoxOk;
      slots := slots - {o.slot};
      o.hasSlot := false;
      BoxKept(o);
    }

    /** Some kernel resource is obtained for the object, or given back. */
    ghost method Hold(o: ExportedObject, held: set<Resource>)
      requires Valid() && o in objects && o !in box
      modifies o`held
      ensures Valid() && o.held == held
    {
      hide ModulesOk, ListOk, CountsOk, PartsOk, SlotsOk, LocksOk, BoxOk;
      o.held := held;
      BoxKept(o);
    }

    method HideParts(d: Disk, refuse: bool) returns (ok: bool)
      requires Valid() && d in disks
      modifies d`flags, d`minors, d`savedFlags, d`savedMinors, d`hidden
      ensures Valid() && (ok <==> !refuse || !old(d.DeletesParts()))
      ensures ok ==> d.hidden == d.whole
      ensures old(d.hidden) ==> d.hidden
    {
      hide ModulesOk, ListOk, CountsOk, SlotsOk, LocksOk, BoxOk;
      ok := d.HideParts(refuse);
    }

    // ------------------------------------------------------------ creation and its unwinding

    /** How far creation has come: the label of the unwinding ladder that undoes it from here. */
    ghost predicate Raised(o: ExportedObject, level: nat)
      reads o`dsk, o`owner, o`hasSlot, o`held
    {
      o.dsk != null && o.held == HeldAt(level) && (o.owner.Some? <==> level >= 2) && (o.hasSlot <==> level >= 5)
    }

    /** The name and the owner. */
    method RaiseOwned(o: ExportedObject, name: string, owner: Module, faults: set<Stage>) returns (level: nat)
      requires Valid() && o in objects && Raised(o, 0) && owner in refs
      modifies this`refs, o`name, o`owner, o`held
      ensures Valid() && level <= 2 && Raised(o, level)
      ensures level == 2 ==> o.name == name && o.owner == Some(owner) && refs == old(refs)[owner := old(refs[owner]) + 1]
      ensures level < 2 ==> refs == old(refs)
      ensures level == 2 <==> OwnerGranted(faults)
    {
      hide Valid;
      NotBoxed(o);
      if NameCopied in faults {
        return 0;
      }
      SetName(o, name);
      Hold(o, HeldAt(1));
      var ok := Pin(o, owner, ModulePinned in faults);
      if !ok {
        return 1;
      }
      return 2;
    }

    lemma NotBoxed(o: ExportedObject)
      requires Valid() && o in objects && !o.Complete()
      ensures o !in box
    {
    }

    method SetName(o: ExportedObject, name: string)
      requires Valid() && o in objects
      modifies o`name
      ensures Valid() && o.name == name
    {
      hide ModulesOk, ListOk, CountsOk, PartsOk, SlotsOk, BoxOk, LocksOk;
      o.name := name;
    }

    method SetPriv(o: ExportedObject, priv: nat)
      requires Valid() && o in objects
      modifies o`priv
      ensures Valid() && o.priv == priv
    {
      hide ModulesOk, ListOk, CountsOk, PartsOk, SlotsOk, BoxOk, LocksOk;
      o.priv := priv;
    }

    /** From the tag set to the minor slot. */
    method RaiseDisk(o: ExportedObject, hasLimits: bool, faults: set<Stage>) returns (level: nat)
      requires Valid() && o in objects && Raised(o, 2)
      modifies this`slots, o`slot, o`hasSlot, o`held
      ensures Valid() && 2 <= level <= 5 && Raised(o, level)
      ensures level == 5 ==> o.slot !in old(slots) && o.slot <= slotMax && slots == old(slots) + {o.slot}
      ensures level < 5 ==> slots == old(slots)
      ensures level == 5 <==> old(SlotFree()) && DiskGranted(hasLimits, faults)
    {
      hide Valid, SlotFree;
      NotBoxed(o);
      if TagSetMade in faults {
        return 2;
      }
      Hold(o, HeldAt(3));
      if hasLimits && LimitsSet in faults {
        return 3;
      }
      if DiskAllocated in faults {
        return 3;
      }
      Hold(o, HeldAt(4));
      var ok := TakeSlot(o, MinorTaken in faults);
      return if ok then 5 else 4;
    }

    /** From there to the holder link. */
    method Register(o: ExportedObject, hasGeometry: bool, faults: set<Stage>) returns (level: nat)
      requires Valid() && o in objects && Raised(o, 5)
      modifies o`held
      ensures Valid() && 5 <= level <= 8 && Raised(o, level)
      ensures level == 8 <==> RegistrationGranted(hasGeometry, faults)
    {
      hide Valid;
      NotBoxed(o);
      if hasGeometry && GeometrySet in faults {
        return 5;
      }
      if DiskAdded in faults {
        return 5;
      }
      Hold(o, HeldAt(6));
      if AttributesMade in faults {
        return 6;
      }
      Hold(o, HeldAt(7));
      if DiskLinked in faults {
        return 7;
      }
      Hold(o, HeldAt(8));
      return 8;
    }

    method RaiseDevice(o: ExportedObject, hasLimits: bool, hasGeometry: bool, faults: set<Stage>) returns (level: nat)
      requires Valid() && o in objects && Raised(o, 2)
      modifies this`slots, o`slot, o`hasSlot, o`held
      ensures Valid() && 2 <= level <= 8 && Raised(o, level)
      ensures level >= 5 ==> o.slot !in old(slots) && o.slot <= slotMax && slots == old(slots) + {o.slot}
      ensures level < 5 ==> slots == old(slots)
      ensures level == 8 <==> old(SlotFree()) && DeviceGranted(hasLimits, hasGeometry, faults)
    {
      hide Valid, Raised, SlotFree, DiskGranted, RegistrationGranted;
      level := RaiseDisk(o, hasLimits, faults);
      if level == 5 {
        level := Register(o, hasGeometry, faults);
      }
    }

    /** The error labels of cas_exp_obj_create from error_bd_claim down to error_module_get, entered at any of them. */
    method Unwind(o: ExportedObject, level: nat)
      requires Valid() && o in objects && level < 8 && Raised(o, level)
      modifies this`refs, this`slots, o`priv, o`owner, o`hasSlot, o`held
      ensures Valid() && Raised(o, 0)
      ensures slots == if level >= 5 then old(slots) - {o.slot} else old(slots)
      ensures level >= 2 ==> refs == old(refs)[old(o.owner.value) := old(refs[o.owner.value]) - 1]
      ensures level < 2 ==> refs == old(refs)
    {
      hide Valid;
      NotBoxed(o);
      if level >= 7 {
        Hold(o, o.held - {Attributes});
      }
      if level >= 6 {
        Hold(o, o.held - {Registration});
      }
      if level >= 5 {
        SetPriv(o, 0);
        ReleaseSlot(o);
      }
      if level >= 4 {
        Hold(o, o.held - {GenDisk});
      }
      if level >= 3 {
        Hold(o, o.held - {TagSet});
      }
      if level >= 2 {
        Unpin(o);
      }
      if level >= 1 {
        Hold(o, o.held - {Name});
      }
    }

    /** Everything creation does once the object is on its disk. */
    method Raise(o: ExportedObject, d: Disk, name: string, owner: Module, priv: nat,
                 hasLimits: bool, hasGeometry: bool, faults: set<Stage>)
      returns (level: nat)
      requires Valid() && o in objects && Raised(o, 0) && d in disks && owner in refs
      modifies this`refs, this`slots, o`name, o`priv, o`owner, o`slot, o`hasSlot, o`held,
               d`flags, d`minors, d`savedFlags, d`savedMinors, d`hidden
      ensures Valid() && level <= 8 && Raised(o, level)
      ensures level >= 2 ==> o.owner == Some(owner) && refs == old(refs)[owner := old(refs[owner]) + 1]
      ensures level < 2 ==> refs == old(refs)
      ensures level >= 5 ==> o.slot !in old(slots) && slots == old(slots) + {o.slot}
      ensures level < 5 ==> slots == old(slots)
      ensures level == 8 ==> o.name == name && o.priv == priv && d.hidden == d.whole
      ensures level == 8 <==>
                && old(SlotFree()) && OwnerGranted(faults) && DeviceGranted(hasLimits, hasGeometry, faults)
                && (PartitionsDeleted in faults ==> !old(d.DeletesParts()))
    {
      hide Valid, Raised, OwnerGranted, DeviceGranted, SlotFree;
      level := 0;
      var hidden := HideParts(d, PartitionsDeleted in faults);
      if hidden {
        level := RaiseOwned(o, name, owner, faults);
        if level == 2 {
          SetPriv(o, priv);
          level := RaiseDevice(o, hasLimits, hasGeometry, faults);
        }
      }
    }

    lemma Referenced(d: Disk)
      requires Valid() && d in disks
      ensures d.refcount > 0
    {
    }

    /** The whole ladder, down to freeing the object; the disk has another reference to live on. */
    method Abandon(o: ExportedObject, level: nat)
      requires Valid() && o in objects && level < 8 && Raised(o, level) && o.dsk.refcount > 1
      modifies this`refs, this`slots, this`objects, this`disks, o`priv, o`owner, o`hasSlot, o`held, o`dsk,
               o.dsk`refcount, o.dsk`flags, o.dsk`minors, o.dsk`hidden
      ensures Valid() && disks == old(disks) && objects == old(objects) - {o}
      ensures old(o.dsk).refcount == old(o.dsk.refcount) - 1
      ensures slots == if level >= 5 then old(slots) - {o.slot} else old(slots)
      ensures level >= 2 ==> refs == old(refs)[old(o.owner.value) := old(refs[o.owner.value]) - 1]
      ensures level < 2 ==> refs == old(refs)
    {
      hide Valid;
      Unwind(o, level);
      NotBoxed(o);
      PutDisk(o);
      Free(o);
    }

    /**
     cas_exp_obj_create. It either makes a complete object, pinned by its owner, on its disk and with a slot of
     its own, or leaves everything as it was, except that the partitions of a whole disk may now be hidden.
     */
    method Create(d: Disk, name: string, owner: Module, priv: nat, hasLimits: bool, hasGeometry: bool, faults: set<Stage>)
      returns (r: Option<ExportedObject>)
      requires Valid() && d in disks && owner in refs
      modifies this`refs, this`slots, this`objects, this`disks,
               d`refcount, d`flags, d`minors, d`savedFlags, d`savedMinors, d`hidden
      ensures Valid() && disks == old(disks)
      ensures r.Some? ==> var o := r.value;
        fresh(o) && objects == old(objects) + {o} && o.Complete()
        && o.dsk == d && o.owner == Some(owner) && o.name == name && o.priv == priv
        && d.refcount == old(d.refcount) + 1 && d.hidden == d.whole
        && refs == old(refs)[owner := old(refs[owner]) + 1]
        && o.slot !in old(slots) && slots == old(slots) + {o.slot}
      ensures r.None? ==> objects == old(objects) && d.refcount == old(d.refcount) && refs == old(refs) && slots == old(slots)
      ensures r.Some? <==>
                && |name| < DISK_NAME_LEN && old(SlotFree())
                && PathCheck !in faults && ObjectMemory !in faults
                && OwnerGranted(faults) && DeviceGranted(hasLimits, hasGeometry, faults)
                && (PartitionsDeleted in faults ==> !old(d.DeletesParts()))
      ensures r.None? && (|name| >= DISK_NAME_LEN || PathCheck in faults || ObjectMemory in faults) ==> d.hidden == old(d.hidden)
    {
      hide Valid, OwnerGranted, DeviceGranted, SlotFree;
      if |name| >= DISK_NAME_LEN {
        return None;
      }
      if PathCheck in faults {
        return None;
      }
      if ObjectMemory in faults {
        return None;
      }
      Referenced(d);
      var o := Alloc();
      GetDisk(o, d);
      var level := Raise(o, d, name, owner, priv, hasLimits, hasGeometry, faults);
      if level == 8 {
        return Some(o);
      }
      Abandon(o, level);
      return None;
    }

    // ------------------------------------------------------------ the end of an object

    /** cas_exp_obj_dismantle: the device is gone and its slot is free; deleting the gendisk takes the attributes along. */
    method Dismantle(o: ExportedObject)
      requires Valid() && o in objects && o.Complete() && o !in box
      modifies this`slots, o`hasSlot, o`held
      ensures Valid() && o.Dismantled() && slots == old(slots) - {o.slot}
    {
      hide Valid;
      Hold(o, o.held - {HolderLink});
      ReleaseSlot(o);
      Hold(o, o.held - {Registration, Attributes});
      Hold(o, o.held - {TagSet});
      Hold(o, o.held - {GenDisk});
    }

    /** cas_exp_obj_destroy: nothing of the object is left, its disk and its owner have one reference less. */
    method Destroy(o: ExportedObject)
      requires Valid() && o in objects && o.Dismantled()
      modifies this`refs, this`disks, this`objects, o`dsk, o`owner, o`held,
               o.dsk`refcount, o.dsk`flags, o.dsk`minors, o.dsk`hidden
      ensures Valid() && objects == old(objects) - {o}
      ensures refs == old(refs)[old(o.owner.value) := old(refs[o.owner.value]) - 1]
      ensures old(o.dsk).refcount == old(o.dsk.refcount) - 1
      ensures old(o.dsk.refcount) > 1 ==> disks == old(disks)
      ensures old(o.dsk.refcount) == 1 ==> Unlisted(old(disks), disks, old(o.dsk))
    {
      hide Valid;
      NotBoxed(o);
      PutDisk(o);
      Hold(o, o.held - {Name});
      Unpin(o);
      Free(o);
    }

    // ------------------------------------------------------------ the box

    /** An object outside the box changes hands. */
    method HandOver(o: ExportedObject, m: Module)
      requires Valid() && o in objects && o.owner.Some? && o !in box && m in refs
      modifies this`refs, o`owner
      ensures Valid() && o.owner == Some(m) && old(o.owner.value) in old(refs)
      ensures refs == Moved(old(refs), old(o.owner.value), m)
    {
      hide ListOk, CountsOk, PartsOk, SlotsOk, LocksOk, BoxOk, OwnedBy;
      OwnerKnown(o);
      hide ModulesOk;
      var from := o.owner.value;
      refs := refs[m := refs[m] + 1];
      refs := refs[from := refs[from] - 1];
      assert refs == Moved(old(refs), from, m);
      hide Moved;
      o.owner := Some(m);
      BoxKept(o);
      PinMoved(o, from, m);
    }

    /** cas_exp_obj_box_deposit, all of it under the box mutex. */
    method Deposit(o: ExportedObject)
      requires Valid() && o in objects && o.Complete() && o !in box
      modifies this`refs, this`box, o`owner
      ensures Valid() && o.Complete() && o.owner == Some(CasBd)
      ensures box == old(box) + [o]
      ensures CasBd in old(refs) && old(o.owner.value) in old(refs) && refs == Moved(old(refs), old(o.owner.value), CasBd)
    {
      hide ModulesOk, ListOk, CountsOk, PartsOk, SlotsOk, LocksOk, BoxOk;
      HasSelf();
      HandOver(o, CasBd);
      PutIn(o);
    }

    method PutIn(o: ExportedObject)
      requires Valid() && o in objects && o.Complete() && o.owner == Some(CasBd) && o !in box
      modifies this`box
      ensures Valid() && box == old(box) + [o]
    {
      hide ModulesOk, ListOk, CountsOk, PartsOk, SlotsOk, LocksOk;
      box := box + [o];
    }

    lemma HasSelf()
      requires ModulesOk()
      ensures CasBd in refs
    {
    }

    method FindOnDisk(d: Disk) returns (i: nat)
      ensures i <= |box| && (forall j :: 0 <= j < i ==> box[j].dsk != d)
      ensures i < |box| ==> box[i].dsk == d
    {
      i := 0;
      while i < |box|
        invariant i <= |box| && forall j :: 0 <= j < i ==> box[j].dsk != d
      {
        if box[i].dsk == d {
          return;
        }
        i := i + 1;
      }
    }

    method FindNamed(name: string) returns (i: nat)
      ensures i <= |box| && (forall j :: 0 <= j < i ==> box[j].name != name)
      ensures i < |box| ==> box[i].name == name
    {
      i := 0;
      while i < |box|
        invariant i <= |box| && forall j :: 0 <= j < i ==> box[j].name != name
      {
        if box[i].name == name {
          return;
        }
        i := i + 1;
      }
    }

    /** cas_exp_obj_box_claim: the first boxed object on the disk goes to the claimer, or nothing changes. */
    method Claim(d: Disk, owner: Module, priv: nat, refuse: bool) returns (r: Option<ExportedObject>, ghost at: nat)
      requires Valid() && owner in refs
      modifies this`refs, this`box, objects`owner, objects`priv
      ensures Valid()
      ensures r.Some? ==> at < |old(box)| && r.value == old(box)[at] && box == Without(old(box), at)
      ensures r.Some? ==> r.value.dsk == d && forall j :: 0 <= j < at ==> old(box)[j].dsk != d
      ensures r.Some? ==> r.value.Complete() && r.value.owner == Some(owner) && r.value.priv == priv
      ensures r.Some? ==> refs == Moved(old(refs), CasBd, owner)
      ensures r.Some? <==> !refuse && exists i :: 0 <= i < |old(box)| && old(box[i].dsk) == d
      ensures r.None? ==> refs == old(refs) && box == old(box)
      ensures forall o | o in objects && r != Some(o) :: o.owner == old(o.owner) && o.priv == old(o.priv)
    {
      hide Valid;
      if refuse {
        return None, 0;
      }
      var i := FindOnDisk(d);
      if i == |box| {
        return None, 0;
      }
      Boxed(i);
      var o := box[i];
      TakeOut(i);
      HandOver(o, owner);
      SetPriv(o, priv);
      return Some(o), i;
    }

    /** cas_exp_obj_box_delete: the first boxed object of that name is dismantled and destroyed. */
    method Delete(name: string) returns (r: Option<nat>)
      requires Valid()
      modifies this`refs, this`box, this`slots, this`disks, this`objects,
               objects`dsk, objects`owner, objects`hasSlot, objects`held,
               disks`refcount, disks`flags, disks`minors, disks`hidden
      ensures Valid()
      ensures r.Some? ==> r.value < |old(box)| && box == Without(old(box), r.value)
      ensures r.Some? ==> old(box)[r.value].name == name && forall j :: 0 <= j < r.value ==> old(box)[j].name != name
      ensures r.Some? ==> objects == old(objects) - {old(box)[r.value]} && slots == old(slots) - {old(box[r.value].slot)}
      ensures r.Some? ==> CasBd in old(refs) && refs == old(refs)[CasBd := old(refs[CasBd]) - 1]
      ensures r.None? ==> refs == old(refs) && box == old(box) && slots == old(slots) && objects == old(objects)
      ensures r.None? ==> forall i :: 0 <= i < |box| ==> box[i].name != name
      ensures forall o | o in objects :: unchanged(o)
      ensures forall d | d in old(disks) && (r.None? || d != old(box[r.value].dsk)) :: unchanged(d)
      ensures r.Some? ==> old(box[r.value].dsk) != null && old(box[r.value].dsk).refcount == old(box[r.value].dsk.refcount) - 1
    {
      hide Valid;
      var i := FindNamed(name);
      if i == |box| {
        return None;
      }
      Boxed(i);
      var o := box[i];
      TakeOut(i);
      Finish(o);
      return Some(i);
    }

    /** Dismantled and destroyed in one go. */
    method Finish(o: ExportedObject)
      requires Valid() && o in objects && o.Complete() && o !in box
      modifies this`refs, this`slots, this`disks, this`objects, o`dsk, o`owner, o`hasSlot, o`held,
               o.dsk`refcount, o.dsk`flags, o.dsk`minors, o.dsk`hidden
      ensures Valid() && objects == old(objects) - {o} && slots == old(slots) - {o.slot}
      ensures refs == old(refs)[old(o.owner.value) := old(refs[o.owner.value]) - 1]
      ensures old(o.dsk).refcount == old(o.dsk.refcount) - 1
    {
      hide Valid;
      Dismantle(o);
      Destroy(o);
    }

    lemma Boxed(i: nat)
      requires Valid() && i < |box|
      ensures box[i] in objects && box[i].Complete() && box[i].owner == Some(CasBd) && box[i].dsk in disks
      ensures CasBd in refs
    {
    }

    method TakeOut(i: nat)
      requires Valid() && i < |box|
      modifies this`box
      ensures Valid() && box == Without(old(box), i) && old(box)[i] !in box
    {
      hide ModulesOk, ListOk, CountsOk, PartsOk, SlotsOk, LocksOk;
      WithoutKeeps(box, i);
      box := Without(box, i);
    }

    // ------------------------------------------------------------ disks

    /** cas_disk_open: the listed disk of that path with one holder more, or a newly opened one. */
    method DiskOpen(path: string, whole: bool, maxParts: nat, scanFlags: set<nat>, flags: set<nat>, minors: nat, refuse: bool)
      returns (r: Option<Disk>)
      requires Valid()
      modifies this`disks, disks`refcount, disks`holders
      ensures Valid()
      ensures r.Some? ==> r.value.path == path && r.value in disks
      ensures r.Some? && r.value in old(disks) ==>
        disks == old(disks) && r.value.refcount == old(r.value.refcount) + 1 && r.value.holders == old(r.value.holders) + 1
      ensures r.Some? && r.value !in old(disks) ==>
        fresh(r.value) && disks == old(disks) + [r.value] && r.value.refcount == 1 && r.value.holders == 1
      ensures forall d | d in old(disks) && r != Some(d) :: d.refcount == old(d.refcount) && d.holders == old(d.holders)
      ensures (exists i :: 0 <= i < |old(disks)| && old(disks)[i].path == path) ==> r.Some? && r.value in old(disks)
      ensures r.Some? && r.value !in old(disks) ==>
        && r.value.whole == whole && r.value.maxParts == maxParts && r.value.scanFlags == scanFlags
        && r.value.origFlags == flags && r.value.origMinors == minors && !r.value.hidden
      ensures r.None? ==> disks == old(disks)
      ensures r.None? <==> refuse && forall i :: 0 <= i < |old(disks)| ==> old(disks)[i].path != path
    {
      var i := 0;
      while i < |disks|
        invariant i <= |disks| && forall j :: 0 <= j < i ==> disks[j].path != path
      {
        if disks[i].path == path {
          var d := disks[i];
          AddHolder(d);
          return Some(d);
        }
        i := i + 1;
      }
      if refuse {
        return None;
      }
      var d := new Disk(path, whole, maxParts, scanFlags, flags, minors);
      ListDisk(d);
      return Some(d);
    }

    method AddHolder(d: Disk)
      requires Valid() && d in disks
      modifies d`refcount, d`holders
      ensures Valid() && d.refcount == old(d.refcount) + 1 && d.holders == old(d.holders) + 1
    {
      hide ModulesOk, ListOk, PartsOk, SlotsOk, LocksOk, BoxOk, On;
      d.refcount := d.refcount + 1;
      d.holders := d.holders + 1;
    }

    method ListDisk(d: Disk)
      requires Valid() && d !in disks && (forall i :: 0 <= i < |disks| ==> disks[i].path != d.path)
      requires d.refcount == 1 && d.holders == 1 && d.Intact() && forall o | o in objects :: o.dsk != d
      modifies this`disks
      ensures Valid() && disks == old(disks) + [d]
    {
      hide ModulesOk, SlotsOk, LocksOk, BoxOk;
      assert On(objects, d) == {};
      disks := disks + [d];
    }

    /** cas_disk_put by a holder. */
    method DiskPut(d: Disk)
      requires Valid() && d in disks && d.holders > 0
      modifies this`disks, d`refcount, d`holders, d`flags, d`minors, d`hidden
      ensures Valid() && d.refcount == old(d.refcount) - 1 && d.holders == old(d.holders) - 1
      ensures d.refcount > 0 ==> disks == old(disks) && d.hidden == old(d.hidden)
      ensures d.refcount == 0 ==> Unlisted(old(disks), disks, d) && d.flags == d.origFlags && d.minors == d.origMinors
    {
      hide ModulesOk, ListOk, PartsOk, SlotsOk, LocksOk, BoxOk, On;
      d.holders := d.holders - 1;
      assert CountsOk(d);
      hide CountsOk;
      DropReference(d);
    }

    // ------------------------------------------------------------ what the accounts mean

    /** A module that is pinned by nobody but others owns no object, and can be unloaded. */
    lemma UnpinnedOwnsNothing(m: Module)
      requires Valid() && m in refs
      ensures refs[m] == base[m] <==> forall o | o in objects :: o.owner != Some(m)
    {
      if refs[m] == base[m] {
        forall o | o in objects
          ensures o.owner != Some(m)
        {
          assert o.owner == Some(m) ==> o in OwnedBy(objects, m);
        }
      } else {
        var o :| o in OwnedBy(objects, m);
      }
    }

    /** The device numbers of different objects do not overlap: slots are 256 minors apart. */
    lemma MinorsDisjoint(o: ExportedObject, p: ExportedObject, i: nat, j: nat)
      requires Valid() && o in objects && p in objects && o != p && o.hasSlot && p.hasSlot
      requires i < 256 && j < 256
      ensures o.slot * 256 + i != p.slot * 256 + j
    {
    }
  }

  /** Nothing is refused from the tag set to the minor slot; the hook of the owner is optional. */
  ghost predicate DiskGranted(hasLimits: bool, faults: set<Stage>) {
    TagSetMade !in faults && (hasLimits ==> LimitsSet !in faults) && DiskAllocated !in faults && MinorTaken !in faults
  }

  /** Nor from there to the holder link. */
  ghost predicate RegistrationGranted(hasGeometry: bool, faults: set<Stage>) {
    (hasGeometry ==> GeometrySet !in faults) && DiskAdded !in faults && AttributesMade !in faults && DiskLinked !in faults
  }

  ghost predicate DeviceGranted(hasLimits: bool, hasGeometry: bool, faults: set<Stage>) {
    DiskGranted(hasLimits, faults) && RegistrationGranted(hasGeometry, faults)
  }

  /** The memory for the name, and the module reference. */
  ghost predicate OwnerGranted(faults: set<Stage>) {
    NameCopied !in faults && ModulePinned !in faults
  }

  ghost function HeldAt(level: nat): set<Resource> {
    (if level >= 1 then {Name} else {})
    + (if level >= 3 then {TagSet} else {})
    + (if level >= 4 then {GenDisk} else {})
    + (if level >= 6 then {Registration} else {})
    + (if level >= 7 then {Attributes} else {})
    + (if level >= 8 then {HolderLink} else {})
  }

  /** One pin moves from one module to another. */
  function Moved(refs: map<Module, int>, from: Module, to: Module): map<Module, int>
    requires from in refs && to in refs
  {
    var more := refs[to := refs[to] + 1];
    more[from := more[from] - 1]
  }

  function Without<T>(s: seq<T>, i: nat): seq<T>
    requires i < |s|
  {
    s[..i] + s[i + 1..]
  }

  lemma WithoutKeeps<T>(s: seq<T>, i: nat)
    requires i < |s| && forall j, k :: 0 <= j < k < |s| ==> s[j] != s[k]
    ensures forall x :: x in Without(s, i) <==> x in s && x != s[i]
    ensures var t := Without(s, i); forall j, k :: 0 <= j < k < |t| ==> t[j] != t[k]
  {
    var t := Without(s, i);
    forall j | 0 <= j < |t|
      ensures t[j] == s[if j < i then j else j + 1]
    {
    }
    forall x | x in s && x != s[i]
      ensures x in t
    {
      var j :| 0 <= j < |s| && s[j] == x;
      assert t[if j < i then j else j - 1] == x;
    }
  }

  /** `now` is `was` without d, in the same order. */
  ghost predicate Unlisted(was: seq<Disk>, now: seq<Disk>, d: Disk) {
    exists i :: 0 <= i < |was| && was[i] == d && now == was[..i] + was[i + 1..]
  }

  lemma UnlistedAt(was: seq<Disk>, now: seq<Disk>, i: nat)
    requires i < |was| && now == was[..i] + was[i + 1..]
    requires forall j, k :: 0 <= j < k < |was| ==> was[j] != was[k] && was[j].path != was[k].path
    ensures Unlisted(was, now, was[i]) && was[i] !in now
    ensures forall e :: e in now <==> e in was && e != was[i]
    ensures forall j, k :: 0 <= j < k < |now| ==> now[j] != now[k] && now[j].path != now[k].path
  {
    forall j | 0 <= j < |now|
      ensures now[j] == was[if j < i then j else j + 1]
    {
    }
    forall e | e in was && e != was[i]
      ensures e in now
    {
      var j :| 0 <= j < |was| && was[j] == e;
      assert now[if j < i then j else j - 1] == e;
    }
  }
}

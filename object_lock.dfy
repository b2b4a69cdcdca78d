/**
 * Locking and unlocking canvas objects (src/PosterEditor.js): the editor
 * writes a fixed set of seven interaction flags on a fabric object. Only
 * those flags and the object's `id` are modelled; redrawing the canvas is
 * not.
 */
module ObjectLock {
  import opened Wrappers

  /** The interaction flags of a canvas object. */
  class CanvasObject {
    var id: string
    var lockMovementX: bool
    var lockMovementY: bool
    var lockRotation: bool
    var lockScalingX: bool
    var lockScalingY: bool
    var hasControls: bool
    var selectable: bool

    constructor (id: string)
      ensures this.id == id && Unlocked(this)
    {
      this.id := id;
      lockMovementX, lockMovementY, lockRotation := false, false, false;
      lockScalingX, lockScalingY := false, false;
      hasControls, selectable := true, true;
    }
  }

  /** The object can be neither moved, rotated, scaled nor selected, and shows no controls. */
  predicate Locked(o: CanvasObject)
    reads o
  {
    o.lockMovementX && o.lockMovementY && o.lockRotation && o.lockScalingX && o.lockScalingY
    && !o.hasControls && !o.selectable
  }

  /** Every one of the seven flags at the opposite value. */
  predicate Unlocked(o: CanvasObject)
    reads o
  {
    !o.lockMovementX && !o.lockMovementY && !o.lockRotation && !o.lockScalingX && !o.lockScalingY
    && o.hasControls && o.selectable
  }

  /** The part of the canvas these operations use: the active (selected) object. */
  class Canvas {
    var active: CanvasObject?

    constructor ()
      ensures active == null
    {
      active := null;
    }
  }

  /**
   * `lockSelected()`: lock the active object, drop the selection and emit
   * `object:locked`; without an active object, do nothing.
   */
  method LockSelected(canvas: Canvas) returns (event: Option<string>)
    modifies canvas, canvas.active
    ensures old(canvas.active) == null ==> canvas.active == null && event == None
    ensures old(canvas.active) != null ==>
      && Locked(old(canvas.active))
      && old(canvas.active).id == old(canvas.active.id)
      && canvas.active == null
      && event == Some("object:locked")
  {
    var o := canvas.active;
    if o == null {
      return None;
    }
    o.lockMovementX, o.lockMovementY, o.lockRotation := true, true, true;
    o.lockScalingX, o.lockScalingY := true, true;
    o.hasControls, o.selectable := false, false;
    canvas.active := null;
    event := Some("object:locked");
  }

  /**
   * `unlockObject(object)`: set the seven flags back and emit
   * `object:unlocked`; without an object, do nothing.
   */
  method UnlockObject(o: CanvasObject?) returns (event: Option<string>)
    modifies o
    ensures o == null ==> event == None
    ensures o != null ==> Unlocked(o) && o.id == old(o.id) && event == Some("object:unlocked")
  {
    if o == null {
      return None;
    }
    o.lockMovementX, o.lockMovementY, o.lockRotation := false, false, false;
    o.lockScalingX, o.lockScalingY := false, false;
    o.hasControls, o.selectable := true, true;
    event := Some("object:unlocked");
  }
}

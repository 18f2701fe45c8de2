/**
 * The virtual keyboard (a uinput device) that receives the translated keys.
 * Only what the key-press callback needs is modelled: the device as a sink
 * that records, in order, every key it was asked to press and release.
 */
module InputDevice {

  class Device {
    /** The keys sent so far, oldest first. */
    var sent: seq<int>

    /** A device just opened has sent nothing. */
    constructor ()
      ensures sent == []
    {
      sent := [];
    }

    /** Presses and releases key once: one more key in the trace. */
    method SendKeyInput(key: int)
      modifies this
      ensures sent == old(sent) + [key]
    {
      sent := sent + [key];
    }
  }
}

// The vendor HID device the USB stack calls back into: it hands out the
// report descriptor, answers GET_REPORT(Feature) from the manager's staged
// response and forwards SET_REPORT(Feature) to the manager.

module VendorHid {
  import opened Bytes
  import opened Wrappers
  import Config
  import VP = VendorProtocol
  import UM = UsbManager

  /** What a GET_REPORT of the vendor feature report returns, given the manager's mailbox. */
  function FeatureReply(hasManager: bool, ready: bool, staged: VP.VendorPacket): (p: VP.VendorPacket)
    ensures !(hasManager && ready) ==> p == VP.ErrorPacket() && p.sequence == 0 && VP.HeaderValid(p)
    ensures hasManager && ready ==> p == staged
  {
    if hasManager && ready then staged else VP.ErrorPacket()
  }

  class GripDeckVendorHid {
    /** The manager the device was created with, possibly none. */
    const manager: UM.UsbManager?

    ghost predicate Valid()
      reads this, manager
    {
      manager != null ==> manager.Valid()
    }

    constructor(manager: UM.UsbManager?)
      ensures this.manager == manager
    {
      this.manager := manager;
    }

    /** `_onGetDescriptor`: copies the whole descriptor and returns its length. */
    method OnGetDescriptor(buffer: array<byte>) returns (n: u16)
      requires |VP.ReportDescriptor| <= buffer.Length
      modifies buffer
      ensures n as int == |VP.ReportDescriptor| == 22
      ensures buffer[..n] == VP.ReportDescriptor
      ensures buffer[n..] == old(buffer[22..])
    {
      CopyInto(buffer, 0, VP.ReportDescriptor);
      n := 22;
    }

    /**
     * `_onGetFeature`: for report 6 and room for a whole packet, writes one
     * packet (the staged response, collected, or the error packet) and
     * returns 32; otherwise writes nothing and returns 0.
     */
    method OnGetFeature(reportId: byte, buffer: array<byte>, len: u16) returns (n: u16)
      requires Valid()
      requires len as int <= buffer.Length
      modifies buffer, manager
      ensures Valid()
      ensures manager != null ==> unchanged(manager`vendorResponse, manager`hidQueue, manager`actions,
                                            manager`usbConnected, manager`initialized,
                                            manager`queueCreated, manager`mutexCreated)
      ensures reportId != Config.VendorReportId || len < VP.PacketSize as u16 ==>
        n == 0 && buffer[..] == old(buffer[..])
        && (manager != null ==> manager.vendorResponseReady == old(manager.vendorResponseReady))
      ensures reportId == Config.VendorReportId && len >= VP.PacketSize as u16 ==>
        n as int == VP.PacketSize
        && buffer[..VP.PacketSize] ==
             VP.Encode(FeatureReply(manager != null, manager != null && old(manager.vendorResponseReady),
                                    if manager != null then manager.vendorResponse else VP.ErrorPacket()))
        && buffer[VP.PacketSize..] == old(buffer[VP.PacketSize..])
        && (manager != null ==> !manager.vendorResponseReady)
    {
      if reportId != Config.VendorReportId as byte || len < 32 {
        return 0;
      }
      var response := VP.ErrorPacket();
      if manager != null {
        var staged := manager.GetVendorResponse(true);
        if staged.Some? {
          response := staged.value;
        }
      }
      CopyInto(buffer, 0, VP.Encode(response));
      return 32;
    }

    /**
     * `_onSetFeature`: a report 6 of at least 32 bytes goes to the manager,
     * whose own length check then drops anything but exactly 32 bytes.
     */
    method OnSetFeature(reportId: byte, buffer: seq<byte>, status: VP.StatusPayload)
      requires Valid()
      requires |buffer| < 0x1_0000
      modifies manager
      ensures Valid()
      ensures manager != null ==> unchanged(manager`hidQueue, manager`actions, manager`usbConnected,
                                            manager`initialized, manager`queueCreated, manager`mutexCreated)
      ensures manager != null && reportId == Config.VendorReportId && |buffer| == VP.PacketSize
              && manager.hidEnabled && VP.ResponseFor(VP.Decode(buffer), status).Some? ==>
        manager.vendorResponseReady && manager.vendorResponse == VP.ResponseFor(VP.Decode(buffer), status).value
      ensures !(manager != null && reportId == Config.VendorReportId && |buffer| == VP.PacketSize
              && manager.hidEnabled && VP.ResponseFor(VP.Decode(buffer), status).Some?) ==>
        manager != null ==>
          manager.vendorResponseReady == old(manager.vendorResponseReady)
          && manager.vendorResponse == old(manager.vendorResponse)
    {
      if manager != null && reportId == Config.VendorReportId as byte && |buffer| >= 32 {
        manager.HandleVendorReport(reportId, buffer, status);
      }
    }
  }
}

/** From power-up to data back: the driver as a whole. */
module EndToEnd {
  import opened Bytes
  import opened DriverState
  import opened ErasePlanning
  import opened FlashDevice
  import opened Initialising
  import opened Spi
  import opened Writing

  /** Initialise a device, wait with an empty read, store data, load it: when every step reports success, the data
      comes back. The tests on the device after initialisation are ones a caller can make; `open` is what it knows of
      the part: whether it powers up without block protection. */
  method InitStoreLoad(flash: Flash, portInit: Err, addr: nat, data: seq<byte>, open: bool)
    returns (err: Err, stored: bool, back: seq<byte>)
    requires flash.spi.chip.WellFormed() && Idle(flash.spi.chip) && Blank(flash.sfdp)
    requires Trusted(flash, flash.spi.chip.part) && (open ==> flash.spi.chip.reg.protect == 0)
    requires addr + |data| < 0x1_0000_0000_0000_0000 && data != []
    modifies flash.spi, flash, flash.sfdp, flash.sfdp.eraser
    ensures err.Success? && stored ==> back == data
    ensures err.Success? ==> (stored <==> CanWrite(flash.writeMode) && !Races(flash) && (open || Unprotects(flash)))
    ensures flash.spi.faults >= old(flash.spi.faults)
    // with the bus at its best and all parameters found it stores, and succeeds exactly when the range is in bounds
    ensures flash.spi.faults == old(flash.spi.faults) && Patient(flash) && portInit.Success? ==>
      !Incomplete(flash) && !LargeAai(flash) ==>
        && (stored <==> CanWrite(flash.writeMode) && !Races(flash) && (open || Unprotects(flash)))
        && (err.Success? <==> !stored || addr + |data| <= flash.capacity)
  {
    hide Trusted, Describes, Found, EraseTable.WellFormed, EraseTable.Chain;
    back, stored := [], false;
    ghost var writing;
    err, writing := DeviceInit(flash, portInit);
    if err.Success? && CanWrite(flash.writeMode) && !Races(flash) && (open || Unprotects(flash)) {
      stored := true;
      var nothing;
      err, nothing := Read(flash, 0, 0);
      if err.Success? {
        err, back := StoreAndLoad(flash, addr, data);
      }
    }
  }
}

/**
  The top level of kdt.py: the module-level list `serials`, built in place by
  the UDisks pass and then the libusb pass, and the loop that prints one
  record per entry.  Each pass is proved against its walk function in
  `Enumerator`; the report is proved against `Report`.
 */
module Kdt {
  import opened Common
  import opened Resolver
  import opened Enumerator

  /** One printed block: the model (`None` prints as such), the serial and the password. */
  datatype Record = Record(model: Option<string>, serial: string, password: string)

  /** What the report loop prints, and whether it died on a serial too short to index. */
  datatype Printed = Printed(records: seq<Record>, crashed: bool)

  predicate TooShort(serial: string) {
    |serial| < 5
  }

  function RecordOf(serial: string, md5: string -> Digest): Record
    requires |serial| >= 5
  {
    Record(ModelOf(serial), serial, Password(serial, md5))
  }

  /**
    The report loop: one record per entry in list order, until the first
    serial shorter than five characters, where `getKindleModel` raises.
   */
  function Report(serials: seq<string>, md5: string -> Digest): (p: Printed)
    ensures |p.records| <= |serials| && (p.crashed <==> |p.records| < |serials|)
    ensures forall i :: 0 <= i < |p.records| ==> p.records[i].serial == serials[i]
  {
    var k := FirstWhere(serials, TooShort);
    Printed(seq(k, i requires 0 <= i < k => RecordOf(serials[i], md5)), k < |serials|)
  }

  /**
    Every entry is reported once, in order, with its model and password, and
    the loop dies exactly when some entry is shorter than five characters,
    after reporting the entries before the first such one.
   */
  lemma ReportSpec(serials: seq<string>, md5: string -> Digest)
    ensures var p := Report(serials, md5);
      (p.crashed <==> exists i :: 0 <= i < |serials| && |serials[i]| < 5) &&
      (!p.crashed ==> |p.records| == |serials|) &&
      (p.crashed ==> |p.records| < |serials| && |serials[|p.records|]| < 5) &&
      forall i :: 0 <= i < |p.records| ==>
        |serials[i]| >= 5 &&
        p.records[i].serial == serials[i] &&
        p.records[i].model == ModelOf(serials[i]) &&
        p.records[i].password == Password(serials[i], md5)
  {
  }

  /** The state of kdt.py while it runs: the list `serials` and the lines written to standard error. */
  class Scanner {
    var serials: seq<string>
    var log: seq<Warning>

    function Current(): State
      reads this
    {
      State(serials, log)
    }

    /** `serials = []` */
    constructor ()
      ensures serials == [] && log == []
    {
      serials := [];
      log := [];
    }

    /** The UDisks pass: on Linux, append the serial of every Kindle drive, until a call raises. */
    method ScanUDisks(linux: bool, backend: Backend<UDisksDevice>)
      modifies this
      ensures Current() == UDisksPass(old(Current()), linux, backend)
    {
      if !linux {
        return;
      }
      if backend.Unavailable? {
        log := log + [UDisksUnusable];
        return;
      }
      var devs := backend.items;
      for i := 0 to |devs|
        invariant UDisksWalk(Current(), devs[i..]) == UDisksWalk(old(Current()), devs)
      {
        var d := devs[i];
        assert devs[i..][0] == d && devs[i..][1..] == devs[i + 1..];
        if d.driveVendor.Raises? {
          log := log + [UDisksUnusable];
          return;
        }
        if d.driveVendor.v == "Kindle" {
          if d.deviceIsDrive.Raises? {
            log := log + [UDisksUnusable];
            return;
          }
          if d.deviceIsDrive.v {
            if d.driveSerial.Raises? {
              log := log + [UDisksUnusable];
              return;
            }
            serials := serials + [d.driveSerial.v];
          }
        }
      }
    }

    /**
      The libusb pass: over every bus and device, read the serial string of
      each matching device and append it unless present; a failed read is
      logged and skipped, a failed open ends the pass.
     */
    method ScanLibusb(backend: Backend<seq<UsbDevice>>)
      modifies this
      ensures Current() == LibusbPass(old(Current()), backend)
    {
      if backend.Unavailable? {
        log := log + [LibusbUnusable];
        return;
      }
      var busses := backend.items;
      if busses == [] {
        // `get_busses()` gave `None`: the `for` over it raises
        log := log + [LibusbUnusable];
        return;
      }
      for b := 0 to |busses|
        invariant LibusbWalk(Current(), Flatten(busses[b..])) == LibusbWalk(old(Current()), Flatten(busses))
      {
        var bus := busses[b];
        assert busses[b..][0] == bus && busses[b..][1..] == busses[b + 1..];
        ghost var later := Flatten(busses[b + 1..]);
        assert bus[0..] == bus;
        for j := 0 to |bus|
          invariant LibusbWalk(Current(), bus[j..] + later) == LibusbWalk(old(Current()), Flatten(busses))
        {
          var dev := bus[j];
          assert (bus[j..] + later)[0] == dev && (bus[j..] + later)[1..] == bus[j + 1..] + later;
          if IsKindleUsb(dev) {
            if !dev.opens {
              log := log + [LibusbUnusable];
              return;
            }
            match dev.serialString
            case Raises =>
              log := log + [LibusbReadFailed];
            case Value(s) =>
              if s !in serials {
                serials := serials + [s];
              }
          }
        }
        assert bus[|bus|..] + later == later;
      }
    }

    /** The report loop over `serials`. */
    method PrintReport(md5: string -> Digest) returns (out: Printed)
      ensures out == Report(serials, md5)
    {
      var list := serials;
      var records := [];
      for i := 0 to |list|
        invariant forall j :: 0 <= j < i ==> !TooShort(list[j])
        invariant |records| == i
        invariant forall j :: 0 <= j < i ==> records[j] == RecordOf(list[j], md5)
      {
        var serial := list[i];
        if |serial| < 5 {
          assert FirstWhere(list, TooShort) == i;
          return Printed(records, true);
        }
        records := records + [Record(ModelOf(serial), serial, Password(serial, md5))];
      }
      assert FirstWhere(list, TooShort) == |list|;
      return Printed(records, false);
    }
  }

  /**
    The whole script: the UDisks pass, the libusb pass, then the report; the
    printed records and the standard-error lines are those of the two
    passes' specifications.
   */
  method Run(linux: bool, udisks: Backend<UDisksDevice>, libusb: Backend<seq<UsbDevice>>, md5: string -> Digest)
    returns (out: Printed, log: seq<Warning>)
    ensures out == Report(Collect(linux, udisks, libusb).serials, md5)
    ensures log == Collect(linux, udisks, libusb).log
  {
    var scanner := new Scanner();
    scanner.ScanUDisks(linux, udisks);
    scanner.ScanLibusb(libusb);
    out := scanner.PrintReport(md5);
    log := scanner.log;
  }
}

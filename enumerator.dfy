/**
  The two device-enumeration passes of kdt.py, as functions of the devices the
  backends report.  The D-Bus/UDisks service and libusb are not modelled: each
  backend is given as a sequence of device records, and every call into it that
  can raise is a `Read` whose outcome is part of the record.
 */
module Enumerator {
  import opened Common

  /** The outcome of one call into a backend: a value, or an exception. */
  datatype Read<T> = Value(v: T) | Raises

  /**
    A backend either fails before its device loop starts (module import,
    connection, bus discovery) or yields its devices in enumeration order.
   */
  datatype Backend<T> = Unavailable | Available(items: seq<T>)

  /** The lines the script writes to standard error, in order. */
  datatype Warning = UDisksUnusable | LibusbReadFailed | LibusbUnusable

  /** The script's module-level state: the list `serials` and what went to standard error. */
  datatype State = State(serials: seq<string>, log: seq<Warning>)

  /** Where a device walk stopped: the state, and whether it reached the end of the devices. */
  datatype Walk = Walk(state: State, completed: bool)

  // ----------------------------------------------------------------------
  // UDisks pass

  /** The three properties the pass reads from one UDisks device object. */
  datatype UDisksDevice = UDisksDevice(driveVendor: Read<string>, deviceIsDrive: Read<bool>, driveSerial: Read<string>)

  /** The filter: a drive whose vendor is exactly "Kindle". */
  predicate UDisksSelected(d: UDisksDevice) {
    d.driveVendor == Value("Kindle") && d.deviceIsDrive == Value(true)
  }

  /** Some property the pass reads from `d` raises (`and` does not read DeviceIsDrive of a non-Kindle). */
  predicate UDisksRaises(d: UDisksDevice) {
    d.driveVendor.Raises? ||
    (d.driveVendor.v == "Kindle" &&
      (d.deviceIsDrive.Raises? || (d.deviceIsDrive.v && d.driveSerial.Raises?)))
  }

  /** The loop over the UDisks devices; an exception leaves the loop with `completed` false. */
  function UDisksWalk(st: State, devs: seq<UDisksDevice>): (r: Walk)
    ensures r.state.log == st.log && st.serials <= r.state.serials
    decreases |devs|
  {
    if devs == [] then Walk(st, true)
    else
      var d := devs[0];
      match d.driveVendor
      case Raises => Walk(st, false)
      case Value(vendor) =>
        if vendor != "Kindle" then UDisksWalk(st, devs[1..])
        else
          match d.deviceIsDrive
          case Raises => Walk(st, false)
          case Value(isDrive) =>
            if !isDrive then UDisksWalk(st, devs[1..])
            else
              match d.driveSerial
              case Raises => Walk(st, false)
              case Value(s) => UDisksWalk(State(st.serials + [s], st.log), devs[1..])
  }

  /** The whole UDisks pass: skipped off Linux, one warning when the backend or the walk fails. */
  function UDisksPass(st: State, linux: bool, backend: Backend<UDisksDevice>): (r: State)
    ensures st.serials <= r.serials
    ensures st.log <= r.log && |r.log| <= |st.log| + 1
  {
    if !linux then st
    else
      match backend
      case Unavailable => State(st.serials, st.log + [UDisksUnusable])
      case Available(devs) =>
        var w := UDisksWalk(st, devs);
        if w.completed then w.state else State(w.state.serials, w.state.log + [UDisksUnusable])
  }

  /** Reference definition: the serials of the selected devices, in enumeration order. */
  function UDisksSerials(devs: seq<UDisksDevice>): seq<string> {
    if devs == [] then []
    else
      var d := devs[0];
      (if UDisksSelected(d) && d.driveSerial.Value? then [d.driveSerial.v] else []) + UDisksSerials(devs[1..])
  }

  /**
    The walk appends exactly the serials of the selected devices before the
    first device that raises, in order and without a duplicate check, and
    completes exactly when no device raises.
   */
  lemma {:induction false} UDisksWalkSpec(st: State, devs: seq<UDisksDevice>)
    ensures var k := FirstWhere(devs, UDisksRaises);
      var w := UDisksWalk(st, devs);
      (w.completed <==> k == |devs|) &&
      w.state == State(st.serials + UDisksSerials(devs[..k]), st.log)
    decreases |devs|
  {
    if devs != [] {
      var d := devs[0];
      if UDisksRaises(d) {
        assert devs[..0] == [];
      } else {
        var st' := if UDisksSelected(d) then State(st.serials + [d.driveSerial.v], st.log) else st;
        assert UDisksWalk(st, devs) == UDisksWalk(st', devs[1..]);
        UDisksWalkSpec(st', devs[1..]);
        var k := FirstWhere(devs, UDisksRaises);
        assert devs[..k][1..] == devs[1..][..k - 1];
        assert devs[..k][0] == d;
      }
    }
  }

  /** A selected serial is in the reference list iff some selected device reports it. */
  lemma {:induction false} UDisksSerialsMembers(devs: seq<UDisksDevice>, s: string)
    ensures s in UDisksSerials(devs) <==>
      exists i :: 0 <= i < |devs| && UDisksSelected(devs[i]) && devs[i].driveSerial == Value(s)
  {
    if devs != [] {
      UDisksSerialsMembers(devs[1..], s);
      if s in UDisksSerials(devs[1..]) {
        var i :| 0 <= i < |devs[1..]| && UDisksSelected(devs[1..][i]) && devs[1..][i].driveSerial == Value(s);
        assert devs[i + 1] == devs[1..][i];
      }
      if exists i :: 0 <= i < |devs| && UDisksSelected(devs[i]) && devs[i].driveSerial == Value(s) {
        var i :| 0 <= i < |devs| && UDisksSelected(devs[i]) && devs[i].driveSerial == Value(s);
        if i > 0 {
          assert devs[1..][i - 1] == devs[i];
        }
      }
    }
  }

  /** The reference list keeps enumeration order across a split of the devices. */
  lemma {:induction false} UDisksSerialsAppend(a: seq<UDisksDevice>, b: seq<UDisksDevice>)
    ensures UDisksSerials(a + b) == UDisksSerials(a) + UDisksSerials(b)
  {
    if a == [] {
      assert a + b == b;
    } else {
      assert (a + b)[0] == a[0];
      assert (a + b)[1..] == a[1..] + b;
      UDisksSerialsAppend(a[1..], b);
    }
  }

  /** An exception ends the walk but keeps every serial appended before it. */
  lemma {:induction false} UDisksAbortKeepsPrefix(st: State, a: seq<UDisksDevice>, d: UDisksDevice, b: seq<UDisksDevice>)
    requires forall i :: 0 <= i < |a| ==> !UDisksRaises(a[i])
    requires UDisksRaises(d)
    ensures UDisksWalk(st, a + [d] + b) == Walk(State(st.serials + UDisksSerials(a), st.log), false)
  {
    var devs := a + [d] + b;
    var k := FirstWhere(devs, UDisksRaises);
    assert devs[|a|] == d;
    assert forall i :: 0 <= i < |a| ==> devs[i] == a[i];
    assert k == |a|;
    assert devs[..k] == a;
    UDisksWalkSpec(st, devs);
  }

  /** The UDisks pass has no duplicate check: two drives reporting one serial give two entries. */
  lemma UDisksKeepsRepeats(s: string)
    ensures
      var d := UDisksDevice(Value("Kindle"), Value(true), Value(s));
      UDisksPass(State([], []), true, Available([d, d])) == State([s, s], [])
  {
    var d := UDisksDevice(Value("Kindle"), Value(true), Value(s));
    assert [d, d][1..] == [d] && [d][1..] == [];
    assert [] + [s] == [s] && [s] + [s] == [s, s];
    assert UDisksWalk(State([], []), [d, d]) == UDisksWalk(State([s], []), [d]);
    assert UDisksWalk(State([s], []), [d]) == UDisksWalk(State([s, s], []), []);
  }

  // ----------------------------------------------------------------------
  // libusb pass

  type u16 = x: int | 0 <= x < 0x1_0000

  /** The vendor and product identifiers the pass looks for (USB 2.0 section 9.6.1 descriptor fields). */
  const KindleVendorId: u16 := 0x1949
  const KindleProductId: u16 := 0x0004

  /**
    One device on a bus: its descriptor identifiers, whether `usb.open`
    returns a handle, and the outcome of reading its serial-number string
    (a `USBError` is `Raises`).
   */
  datatype UsbDevice = UsbDevice(idVendor: u16, idProduct: u16, opens: bool, serialString: Read<string>)

  predicate IsKindleUsb(d: UsbDevice) {
    d.idVendor == KindleVendorId && d.idProduct == KindleProductId
  }

  /** `usb.open` fails on a matching device: it raises outside the inner `try`, ending the pass. */
  predicate LibusbRaises(d: UsbDevice) {
    IsKindleUsb(d) && !d.opens
  }

  /** Every device of every bus, bus by bus, in enumeration order. */
  function Flatten(busses: seq<seq<UsbDevice>>): seq<UsbDevice> {
    if busses == [] then [] else busses[0] + Flatten(busses[1..])
  }

  /** The nested loop over busses and devices, flattened. */
  function LibusbWalk(st: State, devs: seq<UsbDevice>): (r: Walk)
    ensures st.serials <= r.state.serials && st.log <= r.state.log
    decreases |devs|
  {
    if devs == [] then Walk(st, true)
    else
      var d := devs[0];
      if !IsKindleUsb(d) then LibusbWalk(st, devs[1..])
      else if !d.opens then Walk(st, false)
      else
        match d.serialString
        case Raises => LibusbWalk(State(st.serials, st.log + [LibusbReadFailed]), devs[1..])
        case Value(s) =>
          LibusbWalk(State(if s in st.serials then st.serials else st.serials + [s], st.log), devs[1..])
  }

  /**
    The whole libusb pass: one warning when the backend or the walk fails.  An
    empty bus list is `get_busses()` returning `None`, and iterating over it raises.
   */
  function LibusbPass(st: State, backend: Backend<seq<UsbDevice>>): (r: State)
    ensures st.serials <= r.serials && st.log <= r.log
    ensures (backend.Unavailable? || backend.items == []) ==> r == State(st.serials, st.log + [LibusbUnusable])
  {
    match backend
    case Unavailable => State(st.serials, st.log + [LibusbUnusable])
    case Available(busses) =>
      if busses == [] then State(st.serials, st.log + [LibusbUnusable])
      else
        var w := LibusbWalk(st, Flatten(busses));
        if w.completed then w.state else State(w.state.serials, w.state.log + [LibusbUnusable])
  }

  /** Reference definition: the strings read from matching devices, in enumeration order. */
  function LibusbSerials(devs: seq<UsbDevice>): seq<string> {
    if devs == [] then []
    else
      var d := devs[0];
      (if IsKindleUsb(d) && d.opens && d.serialString.Value? then [d.serialString.v] else []) + LibusbSerials(devs[1..])
  }

  /** Reference definition: the number of string reads that raise on matching devices. */
  function ReadFailures(devs: seq<UsbDevice>): nat {
    if devs == [] then 0
    else
      var d := devs[0];
      (if IsKindleUsb(d) && d.opens && d.serialString.Raises? then 1 else 0) + ReadFailures(devs[1..])
  }

  /** Appends each of `ss`, in order, unless the list already holds it. */
  function AppendNew(acc: seq<string>, ss: seq<string>): (r: seq<string>)
    ensures acc <= r && |r| <= |acc| + |ss|
    decreases |ss|
  {
    if ss == [] then acc
    else AppendNew(if ss[0] in acc then acc else acc + [ss[0]], ss[1..])
  }

  /** One step of the walk over a device that does not end it. */
  function LibusbStep(st: State, d: UsbDevice): State {
    if !IsKindleUsb(d) then st
    else if d.serialString.Raises? then State(st.serials, st.log + [LibusbReadFailed])
    else State(if d.serialString.v in st.serials then st.serials else st.serials + [d.serialString.v], st.log)
  }

  /** The reference definitions over the devices before the first failed open, peeled by one device. */
  lemma LibusbPrefixPeel(devs: seq<UsbDevice>)
    requires devs != [] && !LibusbRaises(devs[0])
    ensures var d, k := devs[0], FirstWhere(devs, LibusbRaises);
      var rest := devs[1..][..k - 1];
      k == 1 + FirstWhere(devs[1..], LibusbRaises) &&
      LibusbSerials(devs[..k]) ==
        (if IsKindleUsb(d) && d.opens && d.serialString.Value? then [d.serialString.v] else []) + LibusbSerials(rest) &&
      ReadFailures(devs[..k]) ==
        (if IsKindleUsb(d) && d.opens && d.serialString.Raises? then 1 else 0) + ReadFailures(rest)
  {
    var k := FirstWhere(devs, LibusbRaises);
    assert devs[..k][1..] == devs[1..][..k - 1];
    assert devs[..k][0] == devs[0];
  }

  /**
    The libusb walk adds, without duplicates, the strings read from the
    matching devices before the first one that fails to open, logs one warning
    per failed read, and completes exactly when no matching device fails to open.
   */
  lemma {:induction false} LibusbWalkSpec(st: State, devs: seq<UsbDevice>)
    ensures var k := FirstWhere(devs, LibusbRaises);
      var w := LibusbWalk(st, devs);
      (w.completed <==> k == |devs|) &&
      w.state.serials == AppendNew(st.serials, LibusbSerials(devs[..k])) &&
      w.state.log == st.log + seq(ReadFailures(devs[..k]), i => LibusbReadFailed)
    decreases |devs|
  {
    if devs != [] {
      var d := devs[0];
      if LibusbRaises(d) {
        assert devs[..0] == [];
      } else {
        var st' := LibusbStep(st, d);
        assert LibusbWalk(st, devs) == LibusbWalk(st', devs[1..]);
        LibusbWalkSpec(st', devs[1..]);
        LibusbPrefixPeel(devs);
        var k := FirstWhere(devs, LibusbRaises);
        var rest := LibusbSerials(devs[1..][..k - 1]);
        var n := ReadFailures(devs[1..][..k - 1]);
        if IsKindleUsb(d) && d.serialString.Raises? {
          assert [] + rest == rest;
          assert [LibusbReadFailed] + seq(n, i => LibusbReadFailed) == seq(n + 1, i => LibusbReadFailed);
          assert st.log + [LibusbReadFailed] + seq(n, i => LibusbReadFailed)
              == st.log + seq(n + 1, i => LibusbReadFailed);
        } else if IsKindleUsb(d) {
          var v := d.serialString.v;
          assert ([v] + rest)[0] == v && ([v] + rest)[1..] == rest;
          assert AppendNew(st.serials, [v] + rest) == AppendNew(st'.serials, rest);
        } else {
          assert [] + rest == rest;
        }
      }
    }
  }

  /** After `AppendNew`, a string is present iff it was present before or was offered. */
  lemma {:induction false} AppendNewMembers(acc: seq<string>, ss: seq<string>, x: string)
    ensures x in AppendNew(acc, ss) <==> x in acc || x in ss
    decreases |ss|
  {
    if ss != [] {
      var acc' := if ss[0] in acc then acc else acc + [ss[0]];
      AppendNewMembers(acc', ss[1..], x);
      assert ss == [ss[0]] + ss[1..];
    }
  }

  /**
    `AppendNew` never adds a second copy: a string already present keeps its
    count, and a new string occurs at most once.
   */
  lemma {:induction false} AppendNewCounts(acc: seq<string>, ss: seq<string>, x: string)
    ensures x in acc ==> Count(AppendNew(acc, ss), x) == Count(acc, x)
    ensures x !in acc ==> Count(AppendNew(acc, ss), x) <= 1
    decreases |ss|
  {
    if ss != [] {
      var acc' := if ss[0] in acc then acc else acc + [ss[0]];
      AppendNewCounts(acc', ss[1..], x);
      if ss[0] !in acc {
        assert multiset(acc') == multiset(acc) + multiset{ss[0]};
        if x in acc {
          assert x != ss[0];
        } else if x == ss[0] {
          assert x in acc';
        }
      }
    }
  }

  /** `AppendNew` keeps a duplicate-free list duplicate-free. */
  lemma {:induction false} AppendNewNoDup(acc: seq<string>, ss: seq<string>)
    requires NoDup(acc)
    ensures NoDup(AppendNew(acc, ss))
    decreases |ss|
  {
    if ss != [] {
      var acc' := if ss[0] in acc then acc else acc + [ss[0]];
      assert NoDup(acc');
      AppendNewNoDup(acc', ss[1..]);
    }
  }

  /** The walk's serials and whether it completes do not depend on what was logged. */
  lemma {:induction false} LibusbWalkIgnoresLog(serials: seq<string>, log1: seq<Warning>, log2: seq<Warning>, devs: seq<UsbDevice>)
    ensures LibusbWalk(State(serials, log1), devs).state.serials == LibusbWalk(State(serials, log2), devs).state.serials
    ensures LibusbWalk(State(serials, log1), devs).completed == LibusbWalk(State(serials, log2), devs).completed
    decreases |devs|
  {
    if devs != [] {
      var d := devs[0];
      if IsKindleUsb(d) && d.opens {
        match d.serialString
        case Raises =>
          LibusbWalkIgnoresLog(serials, log1 + [LibusbReadFailed], log2 + [LibusbReadFailed], devs[1..]);
        case Value(s) =>
          LibusbWalkIgnoresLog(if s in serials then serials else serials + [s], log1, log2, devs[1..]);
      } else if !IsKindleUsb(d) {
        LibusbWalkIgnoresLog(serials, log1, log2, devs[1..]);
      }
    }
  }

  /**
    A `USBError` from one device's string read is caught: the walk then finds
    the same serials, and completes or not, exactly as if that device were absent.
   */
  lemma {:induction false} LibusbReadFailureIsolated(st: State, a: seq<UsbDevice>, d: UsbDevice, b: seq<UsbDevice>)
    requires IsKindleUsb(d) && d.opens && d.serialString.Raises?
    ensures LibusbWalk(st, a + [d] + b).state.serials == LibusbWalk(st, a + b).state.serials
    ensures LibusbWalk(st, a + [d] + b).completed == LibusbWalk(st, a + b).completed
    decreases |a|
  {
    if a == [] {
      assert a + [d] + b == [d] + b && a + b == b;
      assert ([d] + b)[1..] == b;
      LibusbWalkIgnoresLog(st.serials, st.log + [LibusbReadFailed], st.log, b);
    } else {
      var x := a[0];
      assert (a + [d] + b)[0] == x && (a + b)[0] == x;
      assert (a + [d] + b)[1..] == a[1..] + [d] + b;
      assert (a + b)[1..] == a[1..] + b;
      if !IsKindleUsb(x) {
        LibusbReadFailureIsolated(st, a[1..], d, b);
      } else if x.opens {
        match x.serialString
        case Raises =>
          LibusbReadFailureIsolated(State(st.serials, st.log + [LibusbReadFailed]), a[1..], d, b);
        case Value(s) =>
          LibusbReadFailureIsolated(State(if s in st.serials then st.serials else st.serials + [s], st.log), a[1..], d, b);
      }
    }
  }

  /** A matching device that fails to open ends the walk; what the walk had found stays. */
  lemma {:induction false} LibusbOpenFailureKeepsPrefix(st: State, a: seq<UsbDevice>, d: UsbDevice, b: seq<UsbDevice>)
    requires forall i :: 0 <= i < |a| ==> !LibusbRaises(a[i])
    requires LibusbRaises(d)
    ensures LibusbWalk(st, a + [d] + b) == Walk(LibusbWalk(st, a).state, false)
  {
    var devs := a + [d] + b;
    var k := FirstWhere(devs, LibusbRaises);
    assert devs[|a|] == d;
    assert forall i :: 0 <= i < |a| ==> devs[i] == a[i];
    assert k == |a|;
    assert devs[..k] == a;
    LibusbWalkSpec(st, devs);
    LibusbWalkSpec(st, a);
    assert a[..|a|] == a;
  }

  /**
    The libusb pass never changes or reorders the entries already in the list,
    never adds a second copy of an entry, and adds each new serial at most once.
   */
  lemma LibusbPassNoNewDuplicates(st: State, backend: Backend<seq<UsbDevice>>, x: string)
    ensures var r := LibusbPass(st, backend).serials;
      |st.serials| <= |r| && r[..|st.serials|] == st.serials &&
      (x in st.serials ==> Count(r, x) == Count(st.serials, x)) &&
      (x !in st.serials ==> Count(r, x) <= 1)
  {
    if backend.Available? {
      var devs := Flatten(backend.items);
      LibusbWalkSpec(st, devs);
      var ss := LibusbSerials(devs[..FirstWhere(devs, LibusbRaises)]);
      AppendNewCounts(st.serials, ss, x);
    }
  }

  // ----------------------------------------------------------------------
  // both passes

  /** The list `serials` and the warnings after both passes, starting from an empty list. */
  function Collect(linux: bool, udisks: Backend<UDisksDevice>, libusb: Backend<seq<UsbDevice>>): (r: State)
    ensures UDisksPass(State([], []), linux, udisks).serials <= r.serials
    ensures UDisksPass(State([], []), linux, udisks).log <= r.log
  {
    LibusbPass(UDisksPass(State([], []), linux, udisks), libusb)
  }

  /** If the UDisks pass found no serial twice, the final list has no duplicates. */
  lemma CollectNoDup(linux: bool, udisks: Backend<UDisksDevice>, libusb: Backend<seq<UsbDevice>>)
    requires NoDup(UDisksPass(State([], []), linux, udisks).serials)
    ensures NoDup(Collect(linux, udisks, libusb).serials)
  {
    var st := UDisksPass(State([], []), linux, udisks);
    if libusb.Available? {
      var devs := Flatten(libusb.items);
      LibusbWalkSpec(st, devs);
      AppendNewNoDup(st.serials, LibusbSerials(devs[..FirstWhere(devs, LibusbRaises)]));
    }
  }

  /** When UDisks is unusable on Linux, the list is what libusb alone finds, after one warning. */
  lemma CollectWithoutUDisks(udisks: Backend<UDisksDevice>, libusb: Backend<seq<UsbDevice>>)
    requires udisks.Unavailable? || (udisks.Available? && |udisks.items| > 0 && udisks.items[0].driveVendor.Raises?)
    ensures Collect(true, udisks, libusb).serials == Collect(false, udisks, libusb).serials
    ensures var log := Collect(true, udisks, libusb).log; |log| > 0 && log[0] == UDisksUnusable
  {
    var empty := State([], []);
    assert UDisksPass(empty, true, udisks) == State([], [UDisksUnusable]);
    assert UDisksPass(empty, false, udisks) == empty;
    if libusb.Available? {
      var devs := Flatten(libusb.items);
      LibusbWalkIgnoresLog([], [UDisksUnusable], [], devs);
      LibusbWalkSpec(State([], [UDisksUnusable]), devs);
    }
  }

  /**
    A serial the UDisks pass found once appears exactly once in the final
    list, whatever the libusb pass reports.
   */
  lemma CollectSeenTwiceOnce(linux: bool, udisks: Backend<UDisksDevice>, libusb: Backend<seq<UsbDevice>>, x: string)
    requires Count(UDisksPass(State([], []), linux, udisks).serials, x) == 1
    ensures Count(Collect(linux, udisks, libusb).serials, x) == 1
  {
    var st := UDisksPass(State([], []), linux, udisks);
    assert x in multiset(st.serials);
    LibusbPassNoNewDuplicates(st, libusb, x);
  }

  /** Example: one Kindle drive and one Kindle USB device with the same serial give one entry. */
  lemma CollectSeenTwiceExample()
    ensures
      var udisks := Available([UDisksDevice(Value("Kindle"), Value(true), Value("B008"))]);
      var libusb := Available([[UsbDevice(0x1949, 0x0004, true, Value("B008"))]]);
      Collect(true, udisks, libusb) == State(["B008"], [])
  {
  }
}

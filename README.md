# KDT4Lin in Dafny

KDT4Lin (`kdt.py`) is a small script. It finds Kindle e-readers attached to a Linux host, and for each one it prints the model, the serial number and the unlock password derived from that serial. This project models the script and proves properties of the model:

- **Resolver** (`resolver.dfy`). `getKindleModel` is a nine-entry table keyed on the character at index 4 of the serial. `getKindlePassword` returns `"fiona"` followed by characters 7..10 of the lower-case MD5 hex digest of the serial followed by a newline. MD5 (RFC 1321) is a parameter `md5: string -> Digest`, where a digest is 16 bytes. The rendering of the digest in hex (`hexdigest()`) is modelled, so the four password characters are proved to be particular nibbles of digest bytes 3, 4 and 5.
- **Enumerator** (`enumerator.dfy`). The two passes that fill the module-level list `serials` are tail-recursive walk functions over device records. Each call into a backend that can raise is a `Read` (a value, or `Raises`) stored in the record.
  - The UDisks pass runs only on Linux. It appends the `DriveSerial` of every device whose `DriveVendor` is `"Kindle"` and whose `DeviceIsDrive` is true. It does not check for duplicates. Any exception ends the pass and writes one warning.
  - The libusb pass walks every bus and every device. It reads the serial string of each device with vendor 0x1949 and product 0x0004, and appends it unless the list already holds it. A `USBError` from the string read is logged and that device is skipped. A failing `usb.open` raises outside the inner `try`, which ends the whole pass.
  - Standard error is modelled as the sequence of warnings written, in order.
- **Top level** (`kdt.dfy`). The class `Scanner` holds `serials` and the warning log. Its methods are the two passes, written as loops over the devices, and the report loop. Each is proved equal to its specification function. `Run` is the whole script.
- **Common** (`common.dfy`) holds `Option`, `FirstWhere` (the first index where a predicate holds), `NoDup` and `Count`.

In three places the script does not do what a reader might expect; the model follows the code:

- `getKindleModel` indexes `serial[4]` without a guard. A serial shorter than five characters raises instead of giving "no match". `ModelOf` therefore requires `|serial| >= 5`. The report loop dies at the first such serial, after printing the entries before it (`Report`, `crashed`).
- The UDisks pass appends without a duplicate check, so the list is not a set. Only the libusb pass deduplicates (`UDisksKeepsRepeats`, `LibusbPassNoNewDuplicates`, `CollectNoDup`).
- A device that cannot be opened ends the libusb pass. Only a failed string read is isolated to its own device (`LibusbOpenFailureKeepsPrefix`, `LibusbReadFailureIsolated`).

## Model

| member | source | states |
|---|---|---|
| `Resolver.ModelOf` | kdt.py:4-13 | Defined only for serials of length at least 5. It gives a model exactly when the character at index 4 is one of `1 2 3 4 5 6 8 9 A`. Every model name starts with "Kindle ". |
| `Resolver.ModelOfIndex4Only` | kdt.py:13 | The model depends only on the character at index 4. |
| `Resolver.ModelNamesDistinct` | kdt.py:5-13 | No two keys share a model name, so a model name identifies its key. |
| `Resolver.ModelOfCaseSensitive` | kdt.py:10-13 | Lower-case 'a' at index 4 gives `None`. |
| `Resolver.ModelOfExamples` | kdt.py:5-13 | Checks these table entries: '8' is "Kindle 3 WIFI", 'A' is "Kindle 3 3G + WIFI European", '1' is "Kindle 1", '9' is "Kindle DX Graphite". |
| `Resolver.HexDigit` | kdt.py:16 | Each nibble becomes a lower-case hex character. `HexValue` maps that character back to the nibble. |
| `Resolver.HexDigest` | kdt.py:16 | The hex digest has two characters per byte, high nibble first. Every character is lower-case hex. |
| `Resolver.UnHexHexDigest` | kdt.py:16 | Parsing the hex digest gives back the digest bytes, so the rendering loses nothing. |
| `Resolver.Password` | kdt.py:15-16 | The password has exactly 9 characters: "fiona" followed by 4 lower-case hex characters. |
| `Resolver.PasswordNibbles` | kdt.py:16 | The 4 hex characters are, in order: the low nibble of digest byte 3, both nibbles of byte 4, and the high nibble of byte 5. The digest is that of the serial followed by "\n". |
| `Resolver.PasswordDependsOnBytes3To5` | kdt.py:16 | Two serials whose digests agree on bytes 3..5 get the same password. |
| `Enumerator.UDisksWalk` | kdt.py:27-32 | The loop over the UDisks devices, stopping at the first property read that raises. It never changes the log and only appends to the list; `UDisksWalkSpec` states exactly what it appends. |
| `Enumerator.UDisksPass` | kdt.py:20-34 | The whole UDisks pass, including the platform check and the bare `except`. It only appends to the list and writes at most one warning; `UDisksWalkSpec` and `UDisksAbortKeepsPrefix` specify its walk. |
| `Enumerator.UDisksWalkSpec` | kdt.py:27-34 | The walk appends, in enumeration order and without a duplicate check, the `DriveSerial` of each device with vendor "Kindle" and `DeviceIsDrive` true. It covers only the devices before the first device where a property read raises. It completes exactly when no read raises. |
| `Enumerator.UDisksSerialsMembers` | kdt.py:30-32 | A serial is collected from a device list iff some device has vendor "Kindle", `DeviceIsDrive` true and that `DriveSerial`. |
| `Enumerator.UDisksSerialsAppend` | kdt.py:27-32 | Collection keeps enumeration order: the serials of `a + b` are those of `a` followed by those of `b`. |
| `Enumerator.UDisksAbortKeepsPrefix` | kdt.py:22-34 | An exception at a device ends the walk. The serials appended before it stay. |
| `Enumerator.UDisksKeepsRepeats` | kdt.py:32 | Two Kindle drives with the same serial give two entries. |
| `Enumerator.LibusbWalk` | kdt.py:44-54 | The nested bus/device loop, flattened, stopping at the first matching device that fails to open. It only appends to the list and to the log; `LibusbWalkSpec` states exactly what it appends. |
| `Enumerator.LibusbPass` | kdt.py:36-56 | The whole libusb pass with its outer `except`. It only appends to the list and the log. An unusable backend or an empty bus list (`get_busses()` giving `None`, which the `for` cannot iterate) leaves the list unchanged and writes one warning. `LibusbWalkSpec` and `LibusbPassNoNewDuplicates` specify the rest. |
| `Enumerator.LibusbWalkSpec` | kdt.py:44-56 | Strings read from devices with vendor 0x1949 and product 0x0004 are added in order, skipping any already in the list. Only devices before the first matching device that fails to open are covered. One warning is logged per failed read. The walk completes exactly when no matching device fails to open. |
| `Enumerator.AppendNew` | kdt.py:51-52 | Appending each string only if missing never changes or reorders the earlier entries, and adds at most one entry per string offered; `AppendNewMembers`, `AppendNewCounts` and `AppendNewNoDup` specify the rest. |
| `Enumerator.AppendNewMembers` | kdt.py:51-52 | Afterwards, a string is in the list iff it was there before or was offered. |
| `Enumerator.AppendNewCounts` | kdt.py:51-52 | A string already present keeps its count. A new string occurs at most once. |
| `Enumerator.AppendNewNoDup` | kdt.py:51-52 | A list without duplicates stays without duplicates. |
| `Enumerator.LibusbWalkIgnoresLog` | kdt.py:49-54 | Which serials the walk collects, and whether it completes, do not depend on the warnings already written. |
| `Enumerator.LibusbReadFailureIsolated` | kdt.py:49-54 | A `USBError` from one device's string read is caught. The walk collects the same serials, and completes or not, as if that device were absent. |
| `Enumerator.LibusbOpenFailureKeepsPrefix` | kdt.py:48 | A matching device that fails to open ends the walk. The result is exactly what the walk had found before that device. |
| `Enumerator.LibusbPassNoNewDuplicates` | kdt.py:37-56 | The libusb pass keeps the existing list as a prefix. It never adds a copy of an entry already present. It adds each new serial at most once. |
| `Enumerator.Collect` | kdt.py:18-56 | The list and warnings after the UDisks pass and then the libusb pass, from an empty list. What the UDisks pass produced stays as a prefix of both. |
| `Enumerator.CollectNoDup` | kdt.py:18-56 | If the UDisks pass found no serial twice, the final list has no duplicates. |
| `Enumerator.CollectWithoutUDisks` | kdt.py:21-56 | When UDisks cannot be used on Linux, the list equals what libusb alone finds, and the first warning is the UDisks warning. |
| `Enumerator.CollectSeenTwiceOnce` | kdt.py:32-52 | A serial the UDisks pass found once appears exactly once in the final list, whatever the libusb pass reports, so a serial seen by both backends is listed once. |
| `Enumerator.CollectSeenTwiceExample` | kdt.py:32-52 | Example: one Kindle drive and one Kindle USB device with serial "B008" give the list ["B008"] and no warning. |
| `Kdt.Report` | kdt.py:58-59 | What the report loop prints: records for a prefix of the list, each carrying its own entry's serial, and a crash exactly when that prefix is not the whole list; `ReportSpec` gives the rest. |
| `Kdt.ReportSpec` | kdt.py:58-59 | Each reported entry comes in list order, with its own serial, its model and its password. The loop dies exactly when some entry is shorter than 5 characters, and it reports every entry before the first such one. Otherwise every entry is reported. |
| `Kdt.Scanner.constructor` | kdt.py:18 | The list starts empty, with nothing written to standard error. |
| `Kdt.Scanner.ScanUDisks` | kdt.py:20-34 | The loop over UDisks devices leaves the list and the log exactly as `UDisksPass` specifies. |
| `Kdt.Scanner.ScanLibusb` | kdt.py:36-56 | The nested loop over busses and devices leaves the list and the log exactly as `LibusbPass` specifies. |
| `Kdt.Scanner.PrintReport` | kdt.py:58-59 | The report loop prints exactly `Report` of the list. |
| `Kdt.Run` | kdt.py:18-59 | The whole script prints `Report` of the list built by the UDisks pass and then the libusb pass, and writes that list's warnings. |

## Left out

- MD5 (RFC 1321) is not computed. It is the parameter `md5`, a total function from strings to 16-byte digests. The byte encoding of the serial (a Python 2 `str`) is not modelled; characters stand for bytes.
- The D-Bus/UDisks client calls (kdt.py:23-29) are not modelled. They become a `Backend` that is either unavailable (import, bus connection, manager object or `EnumerateDevices` failed) or a sequence of device records. A failure of `get_object` or `dbus.Interface` on one device stands as its `DriveVendor` read raising. `str()` of `DriveSerial` is taken as given.
- The libusb calls `init`, `get_busses`, `find_busses` and `find_devices` (kdt.py:39-43) are not modelled. They become a `Backend` of busses, each a sequence of devices. An empty bus list stands for `get_busses` returning `None`; the `for` over it raises, so the pass writes its warning and adds nothing.
- pylibusb/pylibusb.py (ctypes bindings to libusb-0.1) is not part of this model. Two of its facts shape the record: `open` raises `USBError` on a null handle (pylibusb/pylibusb.py:494-500), and `get_string_simple` raises `USBError` through `CHK` (pylibusb/pylibusb.py:443-451, 507-514). The descriptor's `iSerialNumber` index is not a field, because the read's outcome already stands for the string at that index.
- USB device handles are never closed by the script (kdt.py:48). Handle lifetime is not modelled.
- `sys.platform.startswith("linux")` (kdt.py:21) is the boolean parameter `linux`.
- The text of standard output and standard error (kdt.py:34, 54, 56, 59) is not modelled. Output is a sequence of `Record`s, and the warnings are a sequence of `Warning` values. Only their order and count are modelled, not the error message text.
- The process ending on an uncaught `IndexError` in the report loop is modelled only as `crashed`. No traceback or exit status is modelled.

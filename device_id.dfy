/** The device identifier: "RPI-" followed by the CPU serial number, or else by the
    Ethernet MAC address without its colons, or else by the start of a random UUID. The
    contents of the two system files and the UUID are inputs; `None` stands for a file that
    could not be read. */
module DeviceId {
  import opened Base
  import opened PyText

  const Prefix: string := "RPI-"

  /** Iterating over a text file: its lines, each keeping its newline. */
  function Lines(text: string): (lines: seq<string>)
    ensures Flatten(lines) == text
    ensures forall k | 0 <= k < |lines| :: lines[k] != [] && '\n' !in lines[k][..|lines[k]| - 1]
    ensures forall k | 0 <= k < |lines| - 1 :: lines[k][|lines[k]| - 1] == '\n'
    decreases |text|
  {
    if text == [] then []
    else if '\n' !in text then
      assert [text][1..] == [];
      [text]
    else
      var i := IndexOf(text, '\n');
      var rest := Lines(text[i + 1..]);
      assert ([text[..i + 1]] + rest)[1..] == rest;
      assert text[..i + 1][..i] == text[..i];
      assert text == text[..i + 1] + text[i + 1..];
      [text[..i + 1]] + rest
  }

  /** `line.split(':')[-1].strip()` for the first line starting with "Serial", if any. */
  function SerialLine(lines: seq<string>): Option<string>
    decreases |lines|
  {
    if lines == [] then None
    else if StartsWith(lines[0], "Serial") then Some(Strip(LastField(lines[0], ':')))
    else SerialLine(lines[1..])
  }

  /** `get_cpu_serial`, from the contents of /proc/cpuinfo. */
  function CpuSerial(cpuinfo: Option<string>): Option<string>
  {
    if cpuinfo.None? then None else SerialLine(Lines(cpuinfo.value))
  }

  /** The serial comes from the first line that starts with "Serial". */
  lemma {:induction false} SerialLineFirst(lines: seq<string>, k: nat)
    requires k < |lines| && StartsWith(lines[k], "Serial")
    requires forall j | 0 <= j < k :: !StartsWith(lines[j], "Serial")
    ensures SerialLine(lines) == Some(Strip(LastField(lines[k], ':')))
    decreases k
  {
    if k > 0 {
      SerialLineFirst(lines[1..], k - 1);
    }
  }

  /** There is no serial exactly when no line starts with "Serial". */
  lemma {:induction false} SerialLineNone(lines: seq<string>)
    ensures SerialLine(lines).None? <==> forall k | 0 <= k < |lines| :: !StartsWith(lines[k], "Serial")
    decreases |lines|
  {
    if lines != [] {
      SerialLineNone(lines[1..]);
      assert forall k | 1 <= k < |lines| :: lines[k] == lines[1..][k - 1];
    }
  }

  /** The value on a line `<key>:<space><value><newline>` is the value, whatever the
      key holds, when the value has no colon and no whitespace at its ends. */
  lemma SerialValue(key: string, value: string)
    requires ':' !in value
    requires value == [] || (!IsSpace(value[0]) && !IsSpace(value[|value| - 1]))
    ensures Strip(LastField(key + ":" + " " + value + "\n", ':')) == value
  {
    assert key + ":" + " " + value + "\n" == key + [':'] + (" " + value + "\n");
    LastFieldAfter(key, " " + value + "\n", ':');
    StripPadded(" ", value, "\n");
  }

  /** The loop of `get_cpu_serial`: return at the first line starting with "Serial". An
      unreadable file gives no serial. */
  method GetCpuSerial(cpuinfo: Option<string>) returns (serial: Option<string>)
    ensures serial == CpuSerial(cpuinfo)
  {
    if cpuinfo.None? {
      return None;
    }
    var lines := Lines(cpuinfo.value);
    for k := 0 to |lines|
      invariant SerialLine(lines[k..]) == SerialLine(lines)
    {
      assert lines[k..][1..] == lines[k + 1..];
      if StartsWith(lines[k], "Serial") {
        return Some(Strip(LastField(lines[k], ':')));
      }
    }
    return None;
  }

  /** `get_mac_address`, from the contents of /sys/class/net/eth0/address. */
  function MacAddress(addressFile: Option<string>): (mac: Option<string>)
    ensures mac.None? <==> addressFile.None?
    ensures mac.Some? ==> mac.value == Strip(addressFile.value)
    ensures forall pre, t, post |
      addressFile == Some(pre + t + post) &&
      (forall k | 0 <= k < |pre| :: IsSpace(pre[k])) &&
      (forall k | 0 <= k < |post| :: IsSpace(post[k])) &&
      (t == [] || (!IsSpace(t[0]) && !IsSpace(t[|t| - 1]))) :: mac == Some(t)
  {
    StripPaddedAll();
    if addressFile.None? then None else Some(Strip(addressFile.value))
  }

  /** Python truthiness of an optional string: present and non-empty. */
  predicate Truthy(s: Option<string>)
  {
    s.Some? && s.value != []
  }

  /** `generate_device_id`, from the serial, the MAC address and a random UUID's text. */
  function Identifier(serial: Option<string>, mac: Option<string>, uuid: string): (id: string)
    ensures StartsWith(id, Prefix)
    ensures Truthy(serial) ==> id[|Prefix|..] == serial.value
    ensures !Truthy(serial) && Truthy(mac) ==>
      id[|Prefix|..] == RemoveAll(mac.value, ':') && ':' !in id[|Prefix|..]
    ensures !Truthy(serial) && !Truthy(mac) ==>
      id[|Prefix|..] == uuid[..if |uuid| < 8 then |uuid| else 8]
  {
    var suffix :=
      if Truthy(serial) then serial.value
      else if Truthy(mac) then RemoveAll(mac.value, ':')
      else uuid[..if |uuid| < 8 then |uuid| else 8];
    assert (Prefix + suffix)[..|Prefix|] == Prefix;
    assert (Prefix + suffix)[|Prefix|..] == suffix;
    Prefix + suffix
  }

  /** An empty serial or address counts as missing, and a serial makes the address and the
      UUID irrelevant. */
  lemma IdentifierPriority(serial: Option<string>, mac: Option<string>, mac2: Option<string>,
                           uuid: string, uuid2: string)
    ensures Identifier(Some([]), mac, uuid) == Identifier(None, mac, uuid)
    ensures Identifier(serial, Some([]), uuid) == Identifier(serial, None, uuid)
    ensures Truthy(serial) ==> Identifier(serial, mac, uuid) == Identifier(serial, mac2, uuid2)
    ensures Truthy(mac) ==> Identifier(None, mac, uuid) == Identifier(None, mac, uuid2)
  {
  }

  /** A UUID's text has 36 characters, so the fallback identifier has 12. */
  lemma UuidIdentifierLength(uuid: string)
    requires |uuid| >= 8
    ensures |Identifier(None, None, uuid)| == |Prefix| + 8
  {
  }

  /** For an address made of colon-separated groups, the identifier carries the groups
      run together. */
  lemma {:induction false} AddressGroups(groups: seq<string>)
    requires |groups| >= 1
    requires forall k | 0 <= k < |groups| :: ':' !in groups[k]
    ensures RemoveAll(Join(groups, ':'), ':') == Flatten(groups)
    decreases |groups|
  {
    if |groups| == 1 {
      assert groups[1..] == [];
    } else {
      AddressGroups(groups[1..]);
      RemoveAllAppend(groups[0], [':'] + Join(groups[1..], ':'), ':');
      RemoveAllAppend([':'], Join(groups[1..], ':'), ':');
      assert groups[0] + [':'] + Join(groups[1..], ':') == groups[0] + ([':'] + Join(groups[1..], ':'));
    }
  }

  lemma {:induction false} RemoveAllAppend(a: string, b: string, c: char)
    ensures RemoveAll(a + b, c) == RemoveAll(a, c) + RemoveAll(b, c)
    decreases |a|
  {
    if a == [] {
      assert a + b == b;
    } else {
      assert (a + b)[1..] == a[1..] + b;
      RemoveAllAppend(a[1..], b, c);
    }
  }

  /** The script: read both files, then choose the identifier. */
  method GenerateDeviceId(cpuinfo: Option<string>, addressFile: Option<string>, uuid: string)
    returns (id: string)
    ensures id == Identifier(CpuSerial(cpuinfo), MacAddress(addressFile), uuid)
  {
    var serial := GetCpuSerial(cpuinfo);
    var mac := MacAddress(addressFile);
    if serial.Some? && serial.value != [] {
      id := Prefix + serial.value;
    } else if mac.Some? && mac.value != [] {
      id := Prefix + RemoveAll(mac.value, ':');
    } else {
      id := Prefix + uuid[..if |uuid| < 8 then |uuid| else 8];
    }
  }
}

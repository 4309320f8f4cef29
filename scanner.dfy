/** The barcode reader. The scanner behaves as a keyboard: each key press adds a character
    to the code being read, and ENTER reports the code as one JSON line and starts a new
    one. */
module Scanner {
  import opened Base
  import opened PyText

  /** `ecodes.EV_KEY`: the event type of key presses and releases. */
  const EV_KEY: int := 1

  /** The text that marks the scanner among the input devices. */
  const ScannerName: string := "Opticon"

  /** The key name `categorize` reports for a key event: usually one name, but a list of
      names when several names share one key code. */
  datatype Keycode = Name(name: string) | Aliases(names: seq<string>)

  /** One input event: its type, its value (1 for a key press) and its key. */
  datatype InputEvent = InputEvent(kind: int, value: int, keycode: Keycode)

  /** A JSON line on standard output. */
  datatype Report = NotFound | Ready | Scanned(barcode: string)

  /** The read loop's state: the code read so far, the codes reported, and whether an event
      raised an exception (a list of names has no `startswith`), which ends the script. */
  datatype State = State(code: string, barcodes: seq<string>, crashed: bool)

  const Initial := State("", [], false)

  predicate IsKeyDown(e: InputEvent)
  {
    e.kind == EV_KEY && e.value == 1
  }

  predicate IsEnter(e: InputEvent)
  {
    IsKeyDown(e) && e.keycode == Name("KEY_ENTER")
  }

  /** A key press whose key has several names: `keycode.startswith` raises. */
  predicate Raises(e: InputEvent)
  {
    IsKeyDown(e) && e.keycode.Aliases?
  }

  /** The text a key press adds to the code: for a name `KEY_<piece>[_...]`, the piece
      when it is a single character or all digits, and nothing otherwise. */
  function KeyText(name: string): (t: string)
    ensures '_' !in t
    ensures t == [] || |t| == 1 || IsDigits(t)
    ensures t != [] ==> StartsWith(name, "KEY_")
  {
    if StartsWith(name, "KEY_") then
      var parts := Split(name, '_');
      assert |parts| >= 2 by {
        assert name[3] == '_';
      }
      var piece := parts[1];
      if |piece| == 1 || IsDigits(piece) then piece else []
    else []
  }

  /** For a key name `KEY_<piece>`, the text added is the piece when it is one character
      or all digits. */
  lemma KeyTextPiece(piece: string)
    requires '_' !in piece
    ensures KeyText("KEY_" + piece) == (if |piece| == 1 || IsDigits(piece) then piece else [])
  {
    var name := "KEY_" + piece;
    assert name == "KEY" + ['_'] + piece;
    SplitFirst("KEY", piece, '_');
    assert Split(piece, '_') == [piece];
    KeyTextOfPart(name, piece);
  }

  /** Only the piece after the first `_` counts: `KEY_<piece>_<more>` adds what
      `KEY_<piece>` adds. */
  lemma KeyTextFurtherParts(piece: string, more: string)
    requires '_' !in piece
    ensures KeyText("KEY_" + piece + "_" + more) == KeyText("KEY_" + piece)
  {
    KeyTextPiece(piece);
    KeySecondPart(piece, more);
    KeyTextOfPart("KEY_" + piece + "_" + more, piece);
  }

  /** The second `_`-separated part of `KEY_<piece>_<more>` is the piece. */
  lemma KeySecondPart(piece: string, more: string)
    requires '_' !in piece
    ensures var name := "KEY_" + piece + "_" + more;
      |name| >= 4 && name[..4] == "KEY_" && |Split(name, '_')| >= 2 && Split(name, '_')[1] == piece
  {
    var name := "KEY_" + piece + "_" + more;
    assert name == "KEY" + ['_'] + (piece + ['_'] + more);
    SplitFirst("KEY", piece + ['_'] + more, '_');
    SplitFirst(piece, more, '_');
    assert Split(name, '_') == ["KEY", piece] + Split(more, '_');
  }

  /** The text of a `KEY_` name is decided by its second `_`-separated part alone. */
  lemma KeyTextOfPart(name: string, piece: string)
    requires |name| >= 4 && name[..4] == "KEY_"
    requires |Split(name, '_')| >= 2 && Split(name, '_')[1] == piece
    ensures KeyText(name) == (if |piece| == 1 || IsDigits(piece) then piece else [])
  {
  }

  /** ENTER itself adds nothing: ENTER reports the code instead. */
  lemma EnterAddsNothing()
    ensures KeyText("KEY_ENTER") == []
  {
    assert "KEY_ENTER" == "KEY" + ['_'] + "ENTER";
    SplitFirst("KEY", "ENTER", '_');
    assert "ENTER"[0] == 'E';
  }

  /** The text event `e` adds to the code. */
  function Typed(e: InputEvent): string
  {
    if IsKeyDown(e) && e.keycode.Name? then KeyText(e.keycode.name) else []
  }

  /** One iteration of the read loop. */
  function Step(st: State, e: InputEvent): (r: State)
    requires !st.crashed
    ensures !IsKeyDown(e) ==> r == st
    ensures r.crashed <==> Raises(e)
    ensures r.crashed ==> r.code == st.code && r.barcodes == st.barcodes
    ensures IsEnter(e) ==> r == State("", st.barcodes + [st.code], false)
    ensures !Raises(e) && !IsEnter(e) ==> r == st.(code := st.code + Typed(e))
  {
    if !IsKeyDown(e) then st
    else match e.keycode
      case Aliases(_) => st.(crashed := true)
      case Name(n) =>
        if n == "KEY_ENTER" then State("", st.barcodes + [st.code], false)
        else st.(code := st.code + KeyText(n))
  }

  /** The state after the loop has read `events`; once an event has raised, the rest are
      never read. */
  function Scan(events: seq<InputEvent>): State
    decreases |events|
  {
    if events == [] then Initial
    else
      var before := Scan(events[..|events| - 1]);
      if before.crashed then before else Step(before, events[|events| - 1])
  }

  /** `for event in scanner.read_loop()`, over the events the scanner delivers. The loop
      stops at the first event that raises. */
  method ReadLoop(events: seq<InputEvent>) returns (barcodes: seq<string>, code: string, crashed: bool)
    ensures State(code, barcodes, crashed) == Scan(events)
  {
    barcodes, code, crashed := [], "", false;
    var i := 0;
    while i < |events| && !crashed
      invariant 0 <= i <= |events|
      invariant State(code, barcodes, crashed) == Scan(events[..i])
      invariant crashed ==> Scan(events) == Scan(events[..i])
    {
      var e := events[i];
      assert events[..i + 1][..i] == events[..i];
      if e.kind == EV_KEY && e.value == 1 {
        match e.keycode {
          case Aliases(_) =>
            crashed := true;
            CrashedStays(events, i + 1);
          case Name(n) =>
            if n == "KEY_ENTER" {
              barcodes := barcodes + [code];
              code := "";
            } else if StartsWith(n, "KEY_") {
              var parts := Split(n, '_');
              assert n[3] == '_';
              var piece := parts[1];
              if |piece| == 1 {
                code := code + piece;
              } else if IsDigits(piece) {
                code := code + piece;
              }
            }
        }
      }
      i := i + 1;
    }
    if !crashed {
      assert events[..i] == events;
    }
  }

  /** Once the loop has crashed, later events change nothing. */
  lemma {:induction false} CrashedStays(events: seq<InputEvent>, i: nat)
    requires i <= |events| && Scan(events[..i]).crashed
    ensures Scan(events) == Scan(events[..i])
    decreases |events|
  {
    if i < |events| {
      var init := events[..|events| - 1];
      assert init[..i] == events[..i];
      CrashedStays(init, i);
    } else {
      assert events[..i] == events;
    }
  }

  /** Looking for the scanner: the first input device whose name contains "Opticon". */
  method FindScanner(names: seq<string>) returns (found: Option<nat>)
    ensures found.None? <==> forall k | 0 <= k < |names| :: !Contains(names[k], ScannerName)
    ensures found.Some? ==>
      found.value < |names| && Contains(names[found.value], ScannerName) &&
      forall k | 0 <= k < found.value :: !Contains(names[k], ScannerName)
  {
    for k := 0 to |names|
      invariant forall j | 0 <= j < k :: !Contains(names[j], ScannerName)
    {
      if Contains(names[k], ScannerName) {
        return Some(k);
      }
    }
    return None;
  }

  function Reports(barcodes: seq<string>): (r: seq<Report>)
    ensures |r| == |barcodes|
    ensures forall k | 0 <= k < |r| :: r[k] == Scanned(barcodes[k])
  {
    seq(|barcodes|, k requires 0 <= k < |barcodes| => Scanned(barcodes[k]))
  }

  /** `main`: report a missing scanner, or report readiness and then every code read. */
  method Session(names: seq<string>, events: seq<InputEvent>) returns (out: seq<Report>)
    ensures (forall k | 0 <= k < |names| :: !Contains(names[k], ScannerName)) ==> out == [NotFound]
    ensures (exists k | 0 <= k < |names| :: Contains(names[k], ScannerName)) ==>
      out == [Ready] + Reports(Scan(events).barcodes)
  {
    var found := FindScanner(names);
    if found.None? {
      return [NotFound];
    }
    var barcodes, code, crashed := ReadLoop(events);
    out := [Ready] + Reports(barcodes);
  }

  /** All the text a stream of events types, event by event, without the loop's state. */
  function TypedText(events: seq<InputEvent>): string
    decreases |events|
  {
    if events == [] then [] else TypedText(events[..|events| - 1]) + Typed(events[|events| - 1])
  }

  /** No event of `events` is an ENTER or raises: the events only type text. */
  predicate OnlyTyping(events: seq<InputEvent>)
  {
    forall i | 0 <= i < |events| :: !IsEnter(events[i]) && !Raises(events[i])
  }

  /** Events that only type text append exactly what they type to the code. */
  lemma {:induction false} ScanTyping(pre: seq<InputEvent>, mid: seq<InputEvent>)
    requires !Scan(pre).crashed && OnlyTyping(mid)
    ensures Scan(pre + mid) == Scan(pre).(code := Scan(pre).code + TypedText(mid))
    decreases |mid|
  {
    if mid == [] {
      assert pre + mid == pre;
    } else {
      var n := |mid| - 1;
      assert (pre + mid)[..|pre + mid| - 1] == pre + mid[..n];
      assert (pre + mid)[|pre + mid| - 1] == mid[n];
      ScanTyping(pre, mid[..n]);
    }
  }

  /** After the start or after an ENTER, the next ENTER reports exactly the text typed in
      between and starts an empty code. */
  lemma ScanOneCode(pre: seq<InputEvent>, mid: seq<InputEvent>, enter: InputEvent)
    requires pre == [] || IsEnter(pre[|pre| - 1])
    requires forall i | 0 <= i < |pre| :: !Raises(pre[i])
    requires OnlyTyping(mid) && IsEnter(enter)
    ensures Scan(pre + mid + [enter]) == State("", Scan(pre).barcodes + [TypedText(mid)], false)
  {
    StartsEmpty(pre);
    ScanTyping(pre, mid);
    ScanCode(pre, mid, enter);
  }

  /** From an empty code, the text typed and then ENTER reports that text. */
  lemma ScanCode(pre: seq<InputEvent>, mid: seq<InputEvent>, enter: InputEvent)
    requires !Scan(pre).crashed && Scan(pre).code == [] && IsEnter(enter)
    requires Scan(pre + mid) == Scan(pre).(code := Scan(pre).code + TypedText(mid))
    ensures Scan(pre + mid + [enter]) == State("", Scan(pre).barcodes + [TypedText(mid)], false)
  {
    assert Scan(pre + mid).code == TypedText(mid) by {
      assert Scan(pre).code + TypedText(mid) == TypedText(mid);
    }
    ScanEnter(pre + mid, enter);
  }

  /** An ENTER after a live prefix reports the code built so far. */
  lemma ScanEnter(events: seq<InputEvent>, enter: InputEvent)
    requires !Scan(events).crashed && IsEnter(enter)
    ensures Scan(events + [enter]) == State("", Scan(events).barcodes + [Scan(events).code], false)
  {
    var all := events + [enter];
    assert all[..|all| - 1] == events;
    assert all[|all| - 1] == enter;
    assert Scan(all) == Step(Scan(events), enter);
  }

  /** At the start and right after an ENTER the code is empty. */
  lemma StartsEmpty(pre: seq<InputEvent>)
    requires pre == [] || IsEnter(pre[|pre| - 1])
    requires forall i | 0 <= i < |pre| :: !Raises(pre[i])
    ensures !Scan(pre).crashed && Scan(pre).code == []
  {
    if pre != [] {
      NoRaiseNoCrash(pre[..|pre| - 1]);
    }
  }

  /** The number of ENTER presses. */
  function CountEnters(events: seq<InputEvent>): nat
    decreases |events|
  {
    if events == [] then 0
    else CountEnters(events[..|events| - 1]) + (if IsEnter(events[|events| - 1]) then 1 else 0)
  }

  /** As long as nothing raises, every ENTER reports one code and nothing else does. */
  lemma {:induction false} ScanCountsEnters(events: seq<InputEvent>)
    requires forall i | 0 <= i < |events| :: !Raises(events[i])
    ensures !Scan(events).crashed && |Scan(events).barcodes| == CountEnters(events)
    decreases |events|
  {
    if events != [] {
      ScanCountsEnters(events[..|events| - 1]);
    }
  }

  /** A key press with several names ends the loop: the state is the one reached just before
      it. */
  lemma ScanStopsAtRaise(events: seq<InputEvent>, h: nat)
    requires h < |events| && Raises(events[h])
    requires forall i | 0 <= i < h :: !Raises(events[i])
    ensures Scan(events) == Scan(events[..h]).(crashed := true)
  {
    NoRaiseNoCrash(events[..h]);
    assert events[..h + 1][..h] == events[..h];
    CrashedStays(events, h + 1);
  }

  lemma {:induction false} NoRaiseNoCrash(events: seq<InputEvent>)
    requires forall i | 0 <= i < |events| :: !Raises(events[i])
    ensures !Scan(events).crashed
    decreases |events|
  {
    if events != [] {
      NoRaiseNoCrash(events[..|events| - 1]);
    }
  }

  /** Events other than key presses (releases, repeats, other event types) change nothing. */
  lemma IgnoresNonPresses(events: seq<InputEvent>, e: InputEvent)
    requires !IsKeyDown(e)
    ensures Scan(events + [e]) == Scan(events)
  {
    assert (events + [e])[..|events|] == events;
  }
}

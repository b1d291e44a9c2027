/**
  The main window keeps two undo histories side by side: the core's command
  history, which changes the module, and the GUI's, which changes the widgets
  showing it. Undo and redo always step both; the points that invalidate old
  commands (loading a module, removing unused or duplicate instruments and
  patterns) clear both. Cloning an instrument pushes one command onto each,
  and does nothing at all when no instrument number is free.
 */
module MainWindowHistory {
  import opened History
  import DeepCloneInstrument

  /** The core commands the window itself issues; everything else is an edit from a panel. */
  datatype CoreCommand =
    | CloneInstrument(num: int, refNum: int)
    | DeepClone(cmd: DeepCloneInstrument.DeepCloneCommand)
    | CoreEdit(id: nat)

  /** The GUI commands paired with them. */
  datatype GuiCommand =
    | CloneInstrumentQt(num: int, refNum: int)
    | DeepCloneInstrumentQt(num: int, refNum: int)
    | GuiEdit(id: nat)

  datatype Editor = Editor(core: History<CoreCommand>, gui: History<GuiCommand>)

  /** The answer of the instrument manager when every instrument number is taken. */
  const NO_FREE_NUMBER: int := -1

  /** Both histories are at the same point: as many entries done, and as many undone, on each side. */
  predicate InStep(e: Editor) {
    |e.core.done| == |e.gui.done| && |e.core.undone| == |e.gui.undone|
  }

  function UndoBoth(e: Editor): (r: Editor)
    ensures r.core == Undo(e.core) && r.gui == Undo(e.gui)
  {
    Editor(Undo(e.core), Undo(e.gui))
  }

  function RedoBoth(e: Editor): (r: Editor)
    ensures r.core == Redo(e.core) && r.gui == Redo(e.gui)
  {
    Editor(Redo(e.core), Redo(e.gui))
  }

  /** The reset done after a module load and after removing unused or duplicate instruments or patterns. */
  function ClearBoth(e: Editor): (r: Editor)
    ensures r.core.done == [] && r.core.undone == [] && r.gui.done == [] && r.gui.undone == []
  {
    Editor(Clear(e.core), Clear(e.gui))
  }

  /**
    Shallow clone: nothing happens without a free number; otherwise the core
    clone command and its GUI partner go on top of their histories, and any
    redo is lost. Neither command kind merges.
   */
  function Clone(e: Editor, freeNum: int, refNum: int): (r: Editor)
    ensures freeNum == NO_FREE_NUMBER ==> r == e
    ensures freeNum != NO_FREE_NUMBER ==>
              && r.core.done == e.core.done + [CloneInstrument(freeNum, refNum)] && r.core.undone == []
              && r.gui.done == e.gui.done + [CloneInstrumentQt(freeNum, refNum)] && r.gui.undone == []
  {
    if freeNum == NO_FREE_NUMBER then e
    else Editor(Push(e.core, CloneInstrument(freeNum, refNum), NoMerge),
                Push(e.gui, CloneInstrumentQt(freeNum, refNum), NoMerge))
  }

  /** Deep clone: the same guard and the same pair of pushes, with the deep-clone commands. */
  function DeepCloneBoth(e: Editor, freeNum: int, refNum: int): (r: Editor)
    ensures freeNum == NO_FREE_NUMBER ==> r == e
    ensures freeNum != NO_FREE_NUMBER ==>
              && r.core.done == e.core.done + [DeepClone(DeepCloneInstrument.DeepCloneCommand(freeNum, refNum))]
              && r.core.undone == []
              && r.gui.done == e.gui.done + [DeepCloneInstrumentQt(freeNum, refNum)] && r.gui.undone == []
  {
    if freeNum == NO_FREE_NUMBER then e
    else Editor(Push(e.core, DeepClone(DeepCloneInstrument.DeepCloneCommand(freeNum, refNum)), NoMerge),
                Push(e.gui, DeepCloneInstrumentQt(freeNum, refNum), NoMerge))
  }

  /** Every window-level history operation keeps the two histories in step. */
  lemma OperationsKeepInStep(e: Editor, freeNum: int, refNum: int)
    requires InStep(e)
    ensures InStep(UndoBoth(e)) && InStep(RedoBoth(e))
    ensures InStep(Clone(e, freeNum, refNum)) && InStep(DeepCloneBoth(e, freeNum, refNum))
    ensures InStep(ClearBoth(e))
  {
  }

  /** In step, undoing a clone right after it takes both clone commands off together. */
  lemma UndoClone(e: Editor, freeNum: int, refNum: int)
    requires freeNum != NO_FREE_NUMBER
    ensures UndoBoth(Clone(e, freeNum, refNum)) ==
            Editor(History(e.core.done, [CloneInstrument(freeNum, refNum)]),
                   History(e.gui.done, [CloneInstrumentQt(freeNum, refNum)]))
  {
    UndoAfterPush(e.core, CloneInstrument(freeNum, refNum), NoMerge);
    UndoAfterPush(e.gui, CloneInstrumentQt(freeNum, refNum), NoMerge);
  }

  /** Redo after undo gives back both histories whenever there was something to undo on each side. */
  lemma RedoBothAfterUndoBoth(e: Editor)
    requires InStep(e) && |e.core.done| > 0
    ensures RedoBoth(UndoBoth(e)) == e
  {
    RedoAfterUndo(e.core);
    RedoAfterUndo(e.gui);
  }

  /** After a clear, undo and redo have nothing to act on. */
  lemma NothingToUndoAfterClear(e: Editor)
    ensures UndoBoth(ClearBoth(e)) == ClearBoth(e) && RedoBoth(ClearBoth(e)) == ClearBoth(e)
  {
  }
}

/**
  MIDI input. A three-byte channel message whose status is Note Off (8n) or
  Note On (9n) becomes a key event, a two-byte Program Change (Cn) a program
  event; every other message is dropped. A key event is a release when it is
  a Note Off or a Note On of velocity 0, as MIDI 1.0 allows. The key is
  lowered by an octave; a key-off is always sent first, so a stuck note can be
  recovered, and a key-on follows unless the event is a release.
 */
module MidiInput {
  import opened Bytes

  datatype MidiEvent =
    | KeyEvent(status: Byte, key: Byte, velocity: Byte)
    | ProgramEvent(status: Byte, program: Byte)
    | Ignored

  /** Dispatch on message length and the status byte's masked high bits. */
  function Classify(msg: seq<Byte>): (e: MidiEvent)
    ensures e.KeyEvent? <==> |msg| == 3 && 0x80 <= msg[0] as int < 0xA0
    ensures e.ProgramEvent? <==> |msg| == 2 && 0xC0 <= msg[0] as int < 0xD0
    ensures e.KeyEvent? ==> e == KeyEvent(msg[0], msg[1], msg[2])
    ensures e.ProgramEvent? ==> e == ProgramEvent(msg[0], msg[1])
  {
    if |msg| == 0 then Ignored
    else
      Top3Is4(msg[0]);
      HighNibble(msg[0]);
      if |msg| == 3 && msg[0] & 0xE0 == 0x80 then KeyEvent(msg[0], msg[1], msg[2])
      else if |msg| == 2 && msg[0] & 0xF0 == 0xC0 then ProgramEvent(msg[0], msg[1])
      else Ignored
  }

  datatype JamAction = KeyOff(key: int) | KeyOn(key: int)

  /** What one key event does: the octave shown and the jam actions sent, in order. */
  datatype KeyResponse = KeyResponse(octave: int, actions: seq<JamAction>)

  /** The status byte's high nibble is 8, Note Off. */
  predicate IsNoteOff(status: Byte) {
    status & 0xF0 == 0x80
  }

  lemma NoteOffRange(status: Byte)
    ensures IsNoteOff(status) <==> 0x80 <= status as int < 0x90
  {
    HighNibble(status);
  }

  /** Integer division rounding toward zero, as C++ divides ints. */
  function TruncDiv(a: int, b: int): (q: int)
    requires b > 0
    ensures a >= 0 ==> 0 <= a - q * b < b
    ensures a < 0 ==> -b < a - q * b <= 0
  {
    if a >= 0 then a / b else -((-a) / b)
  }

  function KeyEventResponse(status: Byte, key: Byte, velocity: Byte): (r: KeyResponse)
    ensures |r.actions| >= 1 && r.actions[0] == KeyOff(key as int - 12)
    ensures |r.actions| == 2 <==> !IsNoteOff(status) && velocity != 0
    ensures |r.actions| <= 2 && (|r.actions| == 2 ==> r.actions[1] == KeyOn(key as int - 12))
    ensures r.octave == TruncDiv(key as int - 12, 12)
  {
    var release := IsNoteOff(status) || velocity == 0;
    var k := key as int - 12;
    KeyResponse(TruncDiv(k, 12), [KeyOff(k)] + (if release then [] else [KeyOn(k)]))
  }

  /** The whole input path for one raw message: the key response, if the message is a key event. */
  function HandleMessage(msg: seq<Byte>): (r: seq<JamAction>)
    ensures Classify(msg).KeyEvent? ==>
              r == KeyEventResponse(Classify(msg).status, Classify(msg).key, Classify(msg).velocity).actions
    ensures !Classify(msg).KeyEvent? ==> r == []
  {
    match Classify(msg)
    case KeyEvent(s, k, v) => KeyEventResponse(s, k, v).actions
    case _ => []
  }

  /** A Note On of velocity 0 acts exactly like a Note Off of the same key. */
  lemma ZeroVelocityIsRelease(channel: Byte, key: Byte, velocity: Byte)
    requires channel as int < 16 && key as int < 0x80 && velocity as int < 0x80
    ensures HandleMessage([0x90 | channel, key, 0]) == HandleMessage([0x80 | channel, key, velocity])
    ensures HandleMessage([0x80 | channel, key, velocity]) == [KeyOff(key as int - 12)]
  {
    ChannelStatus(0x90, channel);
    ChannelStatus(0x80, channel);
    NoteOffRange(0x90 | channel);
    NoteOffRange(0x80 | channel);
  }

  /** A Note On with a non-zero velocity stops and restarts the key an octave lower. */
  lemma NoteOnSounds(channel: Byte, key: Byte, velocity: Byte)
    requires channel as int < 16 && key as int < 0x80 && 0 < velocity as int < 0x80
    ensures HandleMessage([0x90 | channel, key, velocity]) == [KeyOff(key as int - 12), KeyOn(key as int - 12)]
  {
    ChannelStatus(0x90, channel);
    NoteOffRange(0x90 | channel);
  }

  /** A status kind in the high nibble combined with a channel in the low nibble. */
  lemma ChannelStatus(kind: Byte, channel: Byte)
    requires kind & 0x0F == 0 && channel as int < 16
    ensures (kind | channel) as int == kind as int + channel as int
  {
  }

  /** Only key events reach the jam actions: program changes and anything else send nothing. */
  lemma OnlyKeyEventsSound(msg: seq<Byte>)
    requires !(|msg| == 3 && 0x80 <= msg[0] as int < 0xA0)
    ensures HandleMessage(msg) == []
  {
  }
}

/**
  The terminal panel's input side (lapce-app/src/terminal/data.rs): which bytes a key press
  sends to the shell, the modal editor's visual-mode toggles, the selection toggle, and how a
  run/debug configuration picks the program to start.

  Key encoding follows the xterm conventions: Ctrl with `@`, a letter or one of `[\]^_` sends
  the C0 control code of that character, and the cursor and editing keys send "PC-Style
  Function Keys" sequences whose modifier parameter is 1 + shift + 2·alt + 4·ctrl.
*/
module TerminalData {
  import opened Wrappers

  /** The modifier keys held; `other` stands for any modifier besides Shift, Alt and Ctrl. */
  datatype Modifiers = Modifiers(shift: bool, alt: bool, ctrl: bool, other: bool)
  {
    predicate IsEmpty()
    {
      !shift && !alt && !ctrl && !other
    }

    /** Exactly Ctrl (`Modifiers::CONTROL`). */
    predicate IsCtrl()
    {
      this == Modifiers(false, false, true, false)
    }

    /** Exactly Alt (`Modifiers::ALT`). */
    predicate IsAlt()
    {
      this == Modifiers(false, true, false, false)
    }
  }

  datatype NamedKey =
    | Backspace | Tab | Enter | Escape
    | ArrowUp | ArrowDown | ArrowRight | ArrowLeft | Home | End | Insert | Delete | PageUp | PageDown
    | OtherNamed

  datatype Key = Character(text: string) | Named(named: NamedKey)

  const ESC: char := 27 as char

  /** The control code Ctrl gives a character: `@` is 0x00, `a` to `z` are 0x01 to 0x1A, and
      `[`, `\`, `]`, `^`, `_` are 0x1B to 0x1F. */
  function ControlCode(c: string): (r: Option<char>)
    ensures r.Some? ==> |c| == 1 && r.value as int == c[0] as int % 32
    ensures r.Some? <==> |c| == 1 && ('a' <= c[0] <= 'z' || '@' == c[0] || '[' <= c[0] <= '_')
  {
    match c
    case "@" => Some(0x00 as char)
    case "a" => Some(0x01 as char)
    case "b" => Some(0x02 as char)
    case "c" => Some(0x03 as char)
    case "d" => Some(0x04 as char)
    case "e" => Some(0x05 as char)
    case "f" => Some(0x06 as char)
    case "g" => Some(0x07 as char)
    case "h" => Some(0x08 as char)
    case "i" => Some(0x09 as char)
    case "j" => Some(0x0a as char)
    case "k" => Some(0x0b as char)
    case "l" => Some(0x0c as char)
    case "m" => Some(0x0d as char)
    case "n" => Some(0x0e as char)
    case "o" => Some(0x0f as char)
    case "p" => Some(0x10 as char)
    case "q" => Some(0x11 as char)
    case "r" => Some(0x12 as char)
    case "s" => Some(0x13 as char)
    case "t" => Some(0x14 as char)
    case "u" => Some(0x15 as char)
    case "v" => Some(0x16 as char)
    case "w" => Some(0x17 as char)
    case "x" => Some(0x18 as char)
    case "y" => Some(0x19 as char)
    case "z" => Some(0x1a as char)
    case "[" => Some(0x1b as char)
    case "\\" => Some(0x1c as char)
    case "]" => Some(0x1d as char)
    case "^" => Some(0x1e as char)
    case "_" => Some(0x1f as char)
    case _ =>
      assert |c| == 1 ==> c == [c[0]];
      None
  }

  /** The keys Ctrl turns into control codes, in the order of their codes. */
  const ControlKeys: string := "@abcdefghijklmnopqrstuvwxyz[\\]^_"

  /** The 32 control keys give the 32 C0 codes, in order. */
  lemma ControlCodesInOrder()
    ensures |ControlKeys| == 32
    ensures forall i :: 0 <= i < 32 ==> ControlCode([ControlKeys[i]]) == Some(i as char)
  {
    forall i | 0 <= i < 32
      ensures ControlCode([ControlKeys[i]]) == Some(i as char)
    {
      var c := ControlKeys[i];
      assert ControlCode([c]).Some?;
    }
  }

  /** The modifier digit of a sequence (`modval!`), for the seven combinations the terminal
      encodes. */
  function ModVal(m: Modifiers): (r: Option<char>)
  {
    if m.other then None
    else match (m.alt, m.ctrl, m.shift)
      case (false, false, true) => Some('2')
      case (true, false, false) => Some('3')
      case (true, false, true) => Some('4')
      case (false, true, false) => Some('5')
      case (false, true, true) => Some('6')
      case (true, true, false) => Some('7')
      case (true, true, true) => Some('8')
      case (false, false, false) => None
  }

  function Bit(b: bool): nat
  {
    if b then 1 else 0
  }

  /** The digit is the xterm modifier parameter 1 + shift + 2·alt + 4·ctrl; only Shift, Alt and
      Ctrl, at least one of them, have one. */
  lemma ModValParameter(m: Modifiers)
    ensures ModVal(m).Some? <==> !m.other && (m.shift || m.alt || m.ctrl)
    ensures ModVal(m).Some? ==>
      ModVal(m).value as int - '0' as int == 1 + Bit(m.shift) + 2 * Bit(m.alt) + 4 * Bit(m.ctrl)
  {
  }

  /** `term_sequence!`: the bare sequence with no modifier, `pre`, the modifier digit and
      `post` with one of the seven combinations, nothing otherwise. */
  function TermSequence(m: Modifiers, noMod: string, pre: string, post: string): (r: Option<string>)
    ensures m.IsEmpty() ==> r == Some(noMod)
    ensures !m.IsEmpty() ==> (r.Some? <==> ModVal(m).Some?)
    ensures !m.IsEmpty() && r.Some? ==> r.value == pre + [ModVal(m).value] + post
  {
    if m.IsEmpty() then Some(noMod)
    else match ModVal(m)
      case Some(d) => Some(pre + [d] + post)
      case None => None
  }

  /** The bare sequence, prefix and suffix of each cursor and editing key. */
  function CursorKey(k: NamedKey): Option<(string, string, string)>
  {
    match k
    case ArrowUp => Some(([ESC] + "[A", [ESC] + "[1;", "A"))
    case ArrowDown => Some(([ESC] + "[B", [ESC] + "[1;", "B"))
    case ArrowRight => Some(([ESC] + "[C", [ESC] + "[1;", "C"))
    case ArrowLeft => Some(([ESC] + "[D", [ESC] + "[1;", "D"))
    case Home => Some(([ESC] + "OH", [ESC] + "[1;", "H"))
    case End => Some(([ESC] + "OF", [ESC] + "[1;", "F"))
    case Insert => Some(([ESC] + "[2~", [ESC] + "[2;", "~"))
    case Delete => Some(([ESC] + "[3~", [ESC] + "[3;", "~"))
    case PageUp => Some(([ESC] + "[5~", [ESC] + "[5;", "~"))
    case PageDown => Some(([ESC] + "[6~", [ESC] + "[6;", "~"))
    case _ => None
  }

  /** `resolve_key_event`: the text a key press sends to the terminal, if the key has one. */
  function ResolveKeyEvent(key: Key, m: Modifiers): (r: Option<string>)
    ensures key.Character? ==> (r.Some? <==> m.IsCtrl() && ControlCode(key.text).Some?)
    ensures key.Character? && r.Some? ==> r.value == [ControlCode(key.text).value]
    ensures key == Named(Backspace) ==>
      r == Some(if m.ctrl then [8 as char] else if m.alt then [ESC, 127 as char] else [127 as char])
    ensures key == Named(Tab) ==> r == Some([9 as char])
    ensures key == Named(Enter) ==> r == Some([13 as char])
    ensures key == Named(Escape) ==> r == Some([ESC])
    ensures key.Named? && CursorKey(key.named).Some? ==>
      var (noMod, pre, post) := CursorKey(key.named).value;
      r == TermSequence(m, noMod, pre, post)
    ensures key == Named(OtherNamed) ==> r == None
  {
    match key
    case Character(c) =>
      if m.IsCtrl() then
        match ControlCode(c)
        case Some(code) => Some([code])
        case None => None
      else None
    case Named(Backspace) => Some(if m.ctrl then [8 as char] else if m.alt then [ESC, 127 as char] else [127 as char])
    case Named(Tab) => Some([9 as char])
    case Named(Enter) => Some("\r")
    case Named(Escape) => Some([ESC])
    case Named(k) =>
      match CursorKey(k)
      case Some((noMod, pre, post)) => TermSequence(m, noMod, pre, post)
      case None => None
  }

  datatype VisualMode = VisualNormal | Linewise | Blockwise

  datatype Mode = Normal | Insert | Visual(visual: VisualMode) | Terminal

  /** `send_keypress`: whether the key was handled, and the texts handed to `receive_char` in
      order. A key with no sequence of its own, pressed with exactly Alt, is sent as ESC then
      the character. */
  function SendKeypress(key: Key, m: Modifiers): (r: (bool, seq<string>))
    ensures ResolveKeyEvent(key, m).Some? ==> r == (true, [ResolveKeyEvent(key, m).value])
    ensures ResolveKeyEvent(key, m).None? && m.IsAlt() && key.Character? ==> r == (true, [[ESC], key.text])
    ensures !r.0 <==> r.1 == []
  {
    match ResolveKeyEvent(key, m)
    case Some(command) => (true, [command])
    case None =>
      if m.IsAlt() && key.Character? then (true, [[ESC], key.text])
      else (false, [])
  }

  /** `receive_char`: the shell gets the text only while the panel is in terminal mode. */
  function ReceiveChar(mode: Mode, c: string): (written: seq<string>)
    ensures written == [] || written == [c]
    ensures written == [c] <==> mode == Terminal
  {
    if mode == Terminal then [c] else []
  }

  /** With exactly Alt, a letter goes to the shell as ESC followed by the letter. */
  lemma AltLetterIsEscPrefixed(c: char)
    requires 'a' <= c <= 'z'
    ensures SendKeypress(Character([c]), Modifiers(false, true, false, false)) == (true, [[ESC], [c]])
  {
  }

  datatype SelectionType = Simple | Lines | Block

  datatype Side = LeftSide | RightSide

  datatype Point = Point(line: int, column: nat)

  /** A selection of the terminal grid; whether it covers any cell is recorded as `empty`. */
  datatype Selection = Selection(ty: SelectionType, start: Point, side: Side, empty: bool)

  /** The selection type of each visual mode. */
  function SelectionTypeOf(vm: VisualMode): SelectionType
  {
    match vm
    case VisualNormal => Simple
    case Linewise => Lines
    case Blockwise => Block
  }

  /** The modal state of a terminal panel and the selection of its grid. */
  class TerminalModes {
    var mode: Mode
    var visualMode: VisualMode
    var selection: Option<Selection>

    constructor (mode: Mode)
      ensures this.mode == mode && visualMode == VisualNormal && selection == None
    {
      this.mode := mode;
      visualMode := VisualNormal;
      selection := None;
    }

    /** The mode part of `toggle_visual`, as `VisualToggled` specifies it. */
    method ToggleVisual(vm: VisualMode, modal: bool)
      modifies this`mode, this`visualMode
      ensures (mode, visualMode) == VisualToggled(old(mode), old(visualMode), vm, modal)
    {
      if !modal {
        return;
      }
      match mode {
        case Normal =>
          mode := Visual(vm);
          visualMode := vm;
        case Visual(_) =>
          if visualMode == vm {
            mode := Normal;
          } else {
            visualMode := vm;
          }
        case _ =>
      }
    }

    /** `toggle_selection`: a non-empty selection of the same type goes away, a non-empty one
        of another type takes the new type, and otherwise a new selection starts at `point`. */
    method ToggleSelection(ty: SelectionType, point: Point, side: Side, startsEmpty: bool)
      modifies this`selection
      ensures old(selection).Some? && !old(selection).value.empty && old(selection).value.ty == ty ==> selection == None
      ensures old(selection).Some? && !old(selection).value.empty && old(selection).value.ty != ty
        ==> selection == Some(old(selection).value.(ty := ty))
      ensures old(selection).None? || old(selection).value.empty
        ==> selection == Some(Selection(ty, point, side, startsEmpty))
    {
      match selection {
        case Some(s) =>
          if s.ty == ty && !s.empty {
            selection := None;
          } else if !s.empty {
            selection := Some(s.(ty := ty));
          } else {
            selection := Some(Selection(ty, point, side, startsEmpty));
          }
        case None =>
          selection := Some(Selection(ty, point, side, startsEmpty));
      }
    }
  }

  /** The mode change of `toggle_visual`: nothing without modal editing; from Normal enter the
      visual mode; in the same visual mode go back to Normal; in another one switch to it; any
      other mode stays. */
  function VisualToggled(mode: Mode, visualMode: VisualMode, vm: VisualMode, modal: bool): (r: (Mode, VisualMode))
    ensures !modal ==> r == (mode, visualMode)
    ensures modal && mode == Normal ==> r == (Visual(vm), vm)
    ensures modal && mode.Visual? && visualMode == vm ==> r == (Normal, visualMode)
    ensures modal && mode.Visual? && visualMode != vm ==> r == (mode, vm)
    ensures modal && (mode == Mode.Insert || mode == Terminal) ==> r == (mode, visualMode)
  {
    if !modal then (mode, visualMode)
    else match mode
      case Normal => (Visual(vm), vm)
      case Visual(_) => if visualMode == vm then (Normal, visualMode) else (mode, vm)
      case _ => (mode, visualMode)
  }

  /** Toggling the same visual mode twice from Normal comes back to Normal. */
  lemma ToggleVisualTwice(visualMode: VisualMode, vm: VisualMode)
    ensures var (m1, v1) := VisualToggled(Normal, visualMode, vm, true);
      VisualToggled(m1, v1, vm, true) == (Normal, vm)
  {
  }

  /** A prelaunch step of a run configuration. */
  datatype PrelaunchConfig = PrelaunchConfig(program: string, args: Option<seq<string>>)

  /** The part of `RunDebugConfig` that `expand` reads; the working directory is left out. */
  datatype RunDebugConfig = RunDebugConfig(
    program: string,
    args: Option<seq<string>>,
    env: Option<map<string, string>>,
    prelaunch: Option<PrelaunchConfig>,
    debugCommand: Option<seq<string>>)

  datatype ExpandedRunDebug = ExpandedRunDebug(env: Option<map<string, string>>, program: string, args: Option<seq<string>>)

  const LapceVariable: string := "${lapce}"

  /** The program and arguments a configuration asks for: the debug command's head and tail
      when there is one (an empty tail is no arguments), else the prelaunch step's when
      `isPrelaunch` is set and the configuration has one, else its own. */
  function ChosenCommand(rd: RunDebugConfig, isPrelaunch: bool): (r: (string, Option<seq<string>>))
    ensures rd.debugCommand.Some? ==>
      && r.0 == (if rd.debugCommand.value == [] then "" else rd.debugCommand.value[0])
      && (r.1.Some? <==> |rd.debugCommand.value| > 1)
      && (r.1.Some? ==> r.1.value == rd.debugCommand.value[1..])
    ensures rd.debugCommand.None? && isPrelaunch && rd.prelaunch.Some? ==>
      r == (rd.prelaunch.value.program, rd.prelaunch.value.args)
    ensures rd.debugCommand.None? && (!isPrelaunch || rd.prelaunch.None?) ==> r == (rd.program, rd.args)
  {
    if rd.debugCommand.Some? then
      var args := rd.debugCommand.value;
      var command := if args == [] then "" else args[0];
      var rest := if args != [] then args[1..] else args;
      (command, if rest != [] then Some(rest) else None)
    else if isPrelaunch && rd.prelaunch.Some? then
      (rd.prelaunch.value.program, rd.prelaunch.value.args)
    else
      (rd.program, rd.args)
  }

  /** `ExpandedRunDebug::expand`. `currentExe` is the path of the running editor: an error
      when it cannot be found, None when it is not valid UTF-8. The program `${lapce}` stands
      for that path. */
  function Expand(rd: RunDebugConfig, isPrelaunch: bool, currentExe: Result<Option<string>, string>): (r: Result<ExpandedRunDebug, string>)
    ensures ChosenCommand(rd, isPrelaunch).0 != LapceVariable ==>
      r == Ok(ExpandedRunDebug(rd.env, ChosenCommand(rd, isPrelaunch).0, ChosenCommand(rd, isPrelaunch).1))
    ensures ChosenCommand(rd, isPrelaunch).0 == LapceVariable ==>
      (r.Ok? <==> currentExe.Ok? && currentExe.value.Some?)
    ensures r.Ok? ==> r.value.env == rd.env && r.value.args == ChosenCommand(rd, isPrelaunch).1
    ensures r.Ok? && ChosenCommand(rd, isPrelaunch).0 == LapceVariable ==> r.value.program == currentExe.value.value
  {
    var (program, args) := ChosenCommand(rd, isPrelaunch);
    if program == LapceVariable then
      match currentExe
      case Err(e) => Err("Failed to get current exe for ${lapce} run and debug: " + e)
      case Ok(None) => Err("Failed to convert ${lapce} path to str")
      case Ok(Some(path)) => Ok(ExpandedRunDebug(rd.env, path, args))
    else Ok(ExpandedRunDebug(rd.env, program, args))
  }
}

/**
 The window and its modes (src/ui/screen.cpp): what SDL's events and the fullscreen switch do to the size
 the window comes back to.
 */
module Windows {
  import opened Common
  import opened WindowFit

  datatype Fields = Fields(
    window: Size,   // as SDL has it
    windowed: Size, // windowed_window_size
    backup: Size,   // windowed_window_size_backup
    fullscreen: bool,
    maximized: bool)

  predicate InWindowedMode(f: Fields) {
    !f.fullscreen && !f.maximized
  }

  // ---------- What the handlers do ----------

  function WindowedSize(f: Fields): Size {
    if InWindowedMode(f) then f.window else f.windowed
  }

  function Applied(f: Fields): Fields {
    if InWindowedMode(f) then f.(window := Resized(f.window, f.windowed)) else f
  }

  function SizeChanged(f: Fields): Fields {
    if InWindowedMode(f) then f.(backup := f.windowed, windowed := f.window) else f
  }

  function Maximized(f: Fields): Fields {
    f.(windowed := f.backup, backup := Size(0, 0), maximized := true)
  }

  function Restored(f: Fields): Fields {
    Applied(f.(maximized := false))
  }

  /** SDL gives the window `size` as it changes mode. */
  function Switched(f: Fields, size: Size): Fields {
    Applied(f.(window := size, fullscreen := !f.fullscreen))
  }

  /** What "resize to fit" does before any event is handled, `size` being the one SDL has the window take. */
  function FitRequested(f: Fields, size: Size): Fields {
    if f.fullscreen then f else f.(maximized := false, window := size)
  }

  // ---------- What SDL does, with the events it sends ----------

  datatype Change =
    | Resize(size: Size)                // in windowed mode
    | Maximize(size: Size)              // the new size is reported before the event
    | Restore(size: Size, early: bool)  // the new size is reported after the event, and before it if `early`
    | Switch(size: Size)
    | Adjust(size: Size)                // in another mode
    | Fit(size: Size, early: bool)      // restores a maximized window, with the events of Restore

  predicate Enabled(f: Fields, c: Change) {
    NonZero(c.size) &&
    match c
    case Resize(_) => InWindowedMode(f)
    case Maximize(_) => InWindowedMode(f)
    case Restore(_, _) => f.maximized
    case Switch(_) => true
    case Adjust(_) => !InWindowedMode(f)
    case Fit(_, _) => true
  }

  /** The events of a window restored: the new size is reported after RESTORED, and before it if `early`. */
  function RestoreEvents(f: Fields, early: bool): Fields {
    SizeChanged(Restored(if early then SizeChanged(f) else f))
  }

  function After(f: Fields, c: Change): Fields
    requires Enabled(f, c)
  {
    match c
    case Resize(size) => SizeChanged(f.(window := size))
    case Maximize(size) => Maximized(SizeChanged(f.(window := size)))
    case Restore(size, early) => RestoreEvents(f.(window := size), early)
    case Switch(size) => SizeChanged(Switched(f, size))
    case Adjust(size) => SizeChanged(f.(window := size))
    case Fit(size, early) =>
      if f.maximized && !f.fullscreen then RestoreEvents(FitRequested(f, size), early) else SizeChanged(FitRequested(f, size))
  }

  predicate IsRun(f: Fields, changes: seq<Change>)
    decreases |changes|
  {
    changes == [] || (Enabled(f, changes[0]) && IsRun(After(f, changes[0]), changes[1..]))
  }

  function Exec(f: Fields, changes: seq<Change>): Fields
    requires IsRun(f, changes)
    decreases |changes|
  {
    if changes == [] then f else Exec(After(f, changes[0]), changes[1..])
  }

  /** Whether a change gives the window a size in windowed mode that the events about it do not undo. */
  predicate SetsWindowedSize(f: Fields, c: Change) {
    c.Resize? || (c.Fit? && !f.fullscreen && (f.maximized ==> c.early))
  }

  /** The size the window was last given in windowed mode, `size` being the one it started with. */
  function LastWindowedSize(f: Fields, size: Size, changes: seq<Change>): Size
    requires IsRun(f, changes)
    decreases |changes|
  {
    if changes == [] then size
    else
      var next := if SetsWindowedSize(f, changes[0]) then changes[0].size else size;
      LastWindowedSize(After(f, changes[0]), next, changes[1..])
  }

  ghost predicate Remembers(f: Fields, size: Size) {
    NonZero(size) && f.windowed == size && (InWindowedMode(f) ==> f.window == size)
  }

  /**
   Over any run of changes of mode and size, the windowed size is the last one the window was given in
   windowed mode, and the window has it again whenever it is back in that mode. The assertions on the
   backup hold.
   */
  lemma {:induction false} RemembersWindowedSize(f: Fields, size: Size, changes: seq<Change>)
    requires Remembers(f, size) && IsRun(f, changes)
    ensures var g, last := Exec(f, changes), LastWindowedSize(f, size, changes);
            && Remembers(g, last) && WindowedSize(g) == last
            && forall c: Change | c.Maximize? && Enabled(g, c) :: NonZero(SizeChanged(g.(window := c.size)).backup)
    decreases |changes|
  {
    if changes == [] {
    } else {
      var next := if SetsWindowedSize(f, changes[0]) then changes[0].size else size;
      RemembersWindowedSize(After(f, changes[0]), next, changes[1..]);
    }
  }

  function Switches(changes: seq<Change>): nat {
    if changes == [] then 0 else (if changes[0].Switch? then 1 else 0) + Switches(changes[1..])
  }

  /** Whether the last change that is about it left the window maximized, given whether it was and the mode it was in. */
  predicate EndsMaximized(fullscreen: bool, maximized: bool, changes: seq<Change>)
    decreases |changes|
  {
    if changes == [] then maximized
    else
      var c := changes[0];
      EndsMaximized(if c.Switch? then !fullscreen else fullscreen,
                    c.Maximize? || (maximized && !c.Restore? && !(c.Fit? && !fullscreen)), changes[1..])
  }

  /** The modes are those the changes lead to: each switch toggles fullscreen, restoring and fitting undo maximizing. */
  lemma {:induction false} ModesFollowChanges(f: Fields, changes: seq<Change>)
    requires IsRun(f, changes)
    ensures var g := Exec(f, changes);
            && (g.fullscreen <==> f.fullscreen == (Switches(changes) % 2 == 0))
            && (g.maximized <==> EndsMaximized(f.fullscreen, f.maximized, changes))
    decreases |changes|
  {
    if changes == [] {
    } else {
      ModesFollowChanges(After(f, changes[0]), changes[1..]);
    }
  }

  /** Out of windowed mode the window has the size SDL gave it; in fullscreen a fit changes nothing. */
  lemma OtherModesKeepSdlSize(f: Fields, c: Change)
    requires Enabled(f, c) && !InWindowedMode(After(f, c))
    ensures After(f, c).window == if c.Fit? then f.window else c.size
  {
  }

  /**
   A maximized window is restored to be fitted, and the handler of RESTORED puts the old windowed size
   back: the fit stays exactly when its size is reported before that event, or is the old size.
   */
  lemma FitStaysIffReportedEarly(f: Fields, size: Size, fit: Size, early: bool)
    requires Remembers(f, size) && f.maximized && !f.fullscreen && NonZero(fit)
    ensures After(f, Fit(fit, early)).window == (if early then fit else size)
    ensures After(f, Fit(fit, early)).window == fit <==> early || fit == size
  {
  }

  lemma TwoChanges(f: Fields, c: Change, d: Change)
    requires Enabled(f, c) && Enabled(After(f, c), d)
    ensures IsRun(f, [c, d]) && Exec(f, [c, d]) == After(After(f, c), d)
  {
    assert [c, d][1..] == [d] && [d][1..] == [];
    assert IsRun(After(f, c), [d]) && Exec(After(f, c), [d]) == After(After(f, c), d);
  }

  /** There and back: maximizing and restoring, and switching twice, give the window its size again, whatever sizes SDL gave it. */
  lemma ModesAreUndone(f: Fields, size: Size, there: Size, back: Size, early: bool)
    requires Remembers(f, size) && InWindowedMode(f) && NonZero(there) && NonZero(back)
    ensures IsRun(f, [Maximize(there), Restore(back, early)])
    ensures var g := Exec(f, [Maximize(there), Restore(back, early)]); g.window == size && InWindowedMode(g)
    ensures IsRun(f, [Switch(there), Switch(back)])
    ensures var g := Exec(f, [Switch(there), Switch(back)]); g.window == size && InWindowedMode(g)
  {
    TwoChanges(f, Maximize(there), Restore(back, early));
    TwoChanges(f, Switch(there), Switch(back));
  }

  function Reported(f: Fields, times: nat): Fields {
    if times == 0 then f else SizeChanged(Reported(f, times - 1))
  }

  /** The backup is one report deep: what it holds when the window is said to be maximized. */
  lemma {:induction false} BackupAfterReports(f: Fields, size: Size, maximized: Size, reports: nat)
    requires Remembers(f, size) && InWindowedMode(f)
    ensures var g := Reported(f.(window := maximized), reports);
            && g.window == maximized && InWindowedMode(g)
            && g.windowed == (if reports == 0 then size else maximized)
            && g.backup == if reports == 0 then f.backup else if reports == 1 then size else maximized
  {
    if reports == 0 {
    } else {
      BackupAfterReports(f, size, maximized, reports - 1);
    }
  }

  /**
   When maximizing keeps the windowed size: it is reported once before the event, or the backup happens
   to hold it, or it is the size of the maximized window. The source's assertions on the backup fail
   exactly when nothing is reported and the backup is empty.
   */
  lemma MaximizingKeepsSizeIff(f: Fields, size: Size, maximized: Size, reports: nat)
    requires Remembers(f, size) && InWindowedMode(f) && NonZero(maximized)
    ensures var g := Reported(f.(window := maximized), reports);
            && (Maximized(g).windowed == size <==>
                  reports == 1 || (reports == 0 && f.backup == size) || (reports > 1 && maximized == size))
            && (NonZero(g.backup) <==> reports > 0 || NonZero(f.backup))
  {
    BackupAfterReports(f, size, maximized, reports);
  }

  /** A window resized from 640x480 to 800x600 and maximized: reported not at all, or twice, its size is forgotten. */
  lemma MaximizingMayForget()
    ensures var f := After(Fields(Size(640, 480), Size(640, 480), Size(0, 0), false, false), Resize(Size(800, 600)));
            var g := f.(window := Size(1920, 1080));
            && Remembers(f, Size(800, 600))
            && Maximized(Reported(g, 0)).windowed == Size(640, 480)
            && Maximized(Reported(g, 2)).windowed == Size(1920, 1080)
  {
    var f := After(Fields(Size(640, 480), Size(640, 480), Size(0, 0), false, false), Resize(Size(800, 600)));
    BackupAfterReports(f, Size(800, 600), Size(1920, 1080), 0);
    BackupAfterReports(f, Size(800, 600), Size(1920, 1080), 2);
  }

  // ---------- The object ----------

  datatype WindowEvent = Exposed | SizeChangedEvent | MaximizedEvent | RestoredEvent

  class Screen {
    const display: Option<Size>
    var frameSize: Size
    var window: Size
    var windowedWindowSize: Size
    var windowedWindowSizeBackup: Size
    var fullscreen: bool
    var maximized: bool

    ghost function View(): Fields
      reads this
    {
      Fields(window, windowedWindowSize, windowedWindowSizeBackup, fullscreen, maximized)
    }

    /** InitRendering, once the window is created: SDL makes an empty side one pixel long. */
    constructor (display: Option<Size>, frameSize: Size, windowSize: Size)
      ensures this.display == display && this.frameSize == frameSize
      ensures InWindowedMode(View()) && windowedWindowSize == windowSize && NonZero(window)
      ensures NonZero(windowSize) ==> Remembers(View(), windowSize)
    {
      this.display, this.frameSize := display, frameSize;
      window := Size(if windowSize.width == 0 then 1 else windowSize.width,
                     if windowSize.height == 0 then 1 else windowSize.height);
      windowedWindowSize, windowedWindowSizeBackup := windowSize, Size(0, 0);
      fullscreen, maximized := false, false;
    }

    method GetWindowedWindowSize() returns (size: Size)
      ensures size == WindowedSize(View())
      ensures forall last | Remembers(View(), last) :: size == last
    {
      if fullscreen || maximized {
        return windowedWindowSize;
      }
      return window;
    }

    method ApplyWindowedSize()
      modifies this`window
      ensures View() == Applied(old(View()))
    {
      if !fullscreen && !maximized {
        window := Resized(window, windowedWindowSize);
      }
    }

    /** The assertions on the backup are the source's: SDL has reported the size of the window being maximized. */
    method HandleWindowEvent(event: WindowEvent)
      requires event.MaximizedEvent? ==> NonZero(windowedWindowSizeBackup)
      modifies this
      ensures frameSize == old(frameSize)
      ensures View() == match event
                        case Exposed => old(View())
                        case SizeChangedEvent => SizeChanged(old(View()))
                        case MaximizedEvent => Maximized(old(View()))
                        case RestoredEvent => Restored(old(View()))
    {
      match event
      case Exposed =>
      case SizeChangedEvent =>
        if !fullscreen && !maximized {
          windowedWindowSizeBackup := windowedWindowSize;
          windowedWindowSize := window;
        }
      case MaximizedEvent =>
        windowedWindowSize := windowedWindowSizeBackup;
        windowedWindowSizeBackup := Size(0, 0);
        maximized := true;
      case RestoredEvent =>
        maximized := false;
        ApplyWindowedSize();
    }

    /** `size` is what SDL gives the window in the new mode; absent when it cannot switch. */
    method SwitchFullscreen(size: Option<Size>)
      modifies this`window, this`fullscreen
      ensures View() == if size.None? then old(View()) else Switched(old(View()), size.value)
    {
      if size.None? {
        return;
      }
      window := size.value;
      fullscreen := !fullscreen;
      ApplyWindowedSize();
    }

    /** `restored` is the size SDL gives back to a maximized window. */
    method ResizeToFit(restored: Size)
      modifies this`maximized, this`window
      ensures var from := if old(maximized) then restored else old(window);
              View() == FitRequested(old(View()), Resized(from, GetOptimalSize(from, frameSize, display)))
    {
      if fullscreen {
        return;
      }
      if maximized {
        window := restored;
        maximized := false;
      }
      var size := GetWindowedWindowSize();
      window := Resized(window, GetOptimalSize(size, frameSize, display));
    }
  }
}

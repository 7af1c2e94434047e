/**
 * The state of the `CustomModal` component: the dialog's position and loading
 * flag (React state) and the drag bookkeeping (the `isDragging` and `offset`
 * refs), changed by one method per event: mouse-down on the header,
 * mouse-move and mouse-up on the window, the effect that runs when `isOpen`
 * changes, and the firing of the loading timer. Positions and pointer
 * coordinates are JavaScript numbers, modelled as exact reals; the viewport
 * and container sizes are the integer DOM properties.
 */
module Modal {

  datatype Option<T> = None | Some(value: T)

  /** A measured width and height in pixels (`innerWidth`/`clientWidth` and the heights). */
  datatype Size = Size(width: nat, height: nat)

  /** Half of the 300 px the open effect assumes for the dialog when centring it. */
  const HalfAssumed: real := 150.0

  /** The key whose keydown closes the dialog. */
  const CloseKey: string := "Escape"

  /** `Math.min` of two numbers: the smaller one. */
  function Min(a: real, b: real): (r: real)
    ensures r <= a && r <= b && (r == a || r == b)
  {
    if a <= b then a else b
  }

  /** `Math.max` of two numbers: the larger one. */
  function Max(a: real, b: real): (r: real)
    ensures r >= a && r >= b && (r == a || r == b)
  {
    if a >= b then a else b
  }

  /**
   * `Math.max(0, Math.min(v, hi))`: keeps `v` inside `[0, hi]` when that
   * interval is not empty; the lower bound 0 is applied last, so it wins when
   * `hi` is negative.
   */
  function Clamp(v: real, hi: real): (r: real)
    ensures 0.0 <= r
    ensures 0.0 <= hi ==> r <= hi
    ensures 0.0 <= v <= hi ==> r == v
    ensures v < 0.0 || hi < 0.0 ==> r == 0.0
    ensures 0.0 <= hi < v ==> r == hi
  {
    Max(0.0, Min(v, hi))
  }

  /** What the body of the dialog shows. */
  datatype Body = Skeleton | Children

  /** The one thing a footer button does. */
  datatype Action = RequestClose

  datatype Button = Button(caption: string, onClick: Action)

  /** The footer: the one the caller supplied, or the default Cancel/OK pair. */
  datatype Footer<F> = Supplied(node: F) | Default(buttons: seq<Button>)

  /** The rendered dialog: where it is placed, its body and its footer. */
  datatype Frame<F> = Frame(left: real, top: real, body: Body, footer: Footer<F>)

  class ModalState {
    /** The `position` state. */
    var x: real
    var y: real
    /** The `isLoading` state. */
    var isLoading: bool
    /** The `isDragging` ref. */
    var isDragging: bool
    /** The `offset` ref: pointer minus position at the grab. */
    var offsetX: real
    var offsetY: real
    /** Loading timers scheduled by the open effect that have not fired yet. */
    var pendingTimers: nat

    /** True when the position lies inside `[0, viewport - container]` on both axes. */
    predicate InBounds(viewport: Size, container: Size)
      reads this
    {
      0.0 <= x <= (viewport.width - container.width) as real &&
      0.0 <= y <= (viewport.height - container.height) as real
    }

    /** The initial state of a freshly mounted component. */
    constructor ()
      ensures x == 0.0 && y == 0.0 && isLoading
      ensures !isDragging && offsetX == 0.0 && offsetY == 0.0
      ensures pendingTimers == 0
    {
      x, y := 0.0, 0.0;
      isLoading := true;
      isDragging := false;
      offsetX, offsetY := 0.0, 0.0;
      pendingTimers := 0;
    }

    /** `handleMouseDown`: start dragging and remember where the pointer grabbed the dialog. */
    method MouseDown(clientX: real, clientY: real)
      modifies this
      ensures isDragging
      ensures offsetX == clientX - x && offsetY == clientY - y
      ensures x == old(x) && y == old(y)
      ensures isLoading == old(isLoading) && pendingTimers == old(pendingTimers)
    {
      isDragging := true;
      offsetX, offsetY := clientX - x, clientY - y;
    }

    /**
     * `handleMouseMove`: while dragging, move the dialog to the pointer minus
     * the grab offset, clamped to the viewport less the container's size on
     * each axis; otherwise do nothing. The container is only read while
     * dragging, and it must be measured then.
     */
    method MouseMove(clientX: real, clientY: real, viewport: Size, container: Option<Size>)
      requires isDragging ==> container.Some?
      modifies this
      ensures !old(isDragging) ==> unchanged(this)
      ensures old(isDragging) ==>
        var maxX, maxY := (viewport.width - container.value.width) as real,
                          (viewport.height - container.value.height) as real;
        && x == Clamp(clientX - offsetX, maxX)
        && y == Clamp(clientY - offsetY, maxY)
        && 0.0 <= x && 0.0 <= y
        && (0.0 <= maxX ==> x <= maxX)
        && (0.0 <= maxY ==> y <= maxY)
        && (0.0 <= clientX - offsetX <= maxX ==> x == clientX - offsetX)
        && (0.0 <= clientY - offsetY <= maxY ==> y == clientY - offsetY)
      ensures isDragging == old(isDragging)
      ensures offsetX == old(offsetX) && offsetY == old(offsetY)
      ensures isLoading == old(isLoading) && pendingTimers == old(pendingTimers)
    {
      if isDragging {
        var size := container.value;
        var newX := Clamp(clientX - offsetX, (viewport.width - size.width) as real);
        var newY := Clamp(clientY - offsetY, (viewport.height - size.height) as real);
        x, y := newX, newY;
      }
    }

    /** `handleMouseUp`: stop dragging, whatever the state was. */
    method MouseUp()
      modifies this
      ensures !isDragging
      ensures x == old(x) && y == old(y)
      ensures offsetX == old(offsetX) && offsetY == old(offsetY)
      ensures isLoading == old(isLoading) && pendingTimers == old(pendingTimers)
    {
      isDragging := false;
    }

    /**
     * The effect that runs whenever `isOpen` changes: when it became true,
     * show the loading placeholder, schedule the timer that ends loading, and
     * centre a 300 px dialog in the viewport; when it became false, nothing.
     * The timer is never cancelled.
     */
    method OpenEffect(isOpen: bool, viewport: Size)
      modifies this
      ensures !isOpen ==> unchanged(this)
      ensures isOpen ==> isLoading && pendingTimers == old(pendingTimers) + 1
      ensures isOpen ==> 2.0 * (x + HalfAssumed) == viewport.width as real
      ensures isOpen ==> 2.0 * (y + HalfAssumed) == viewport.height as real
      ensures isDragging == old(isDragging)
      ensures offsetX == old(offsetX) && offsetY == old(offsetY)
    {
      if isOpen {
        isLoading := true;
        pendingTimers := pendingTimers + 1;
        x := viewport.width as real / 2.0 - HalfAssumed;
        y := viewport.height as real / 2.0 - HalfAssumed;
      }
    }

    /** One scheduled loading timer fires: loading ends, whether or not the dialog is still open. */
    method LoadDone()
      requires pendingTimers > 0
      modifies this
      ensures !isLoading && pendingTimers == old(pendingTimers) - 1
      ensures x == old(x) && y == old(y)
      ensures isDragging == old(isDragging)
      ensures offsetX == old(offsetX) && offsetY == old(offsetY)
    {
      isLoading := false;
      pendingTimers := pendingTimers - 1;
    }

    /**
     * `handleEsc`: reports whether this keydown asks the owner to close. The
     * listener is registered for as long as the component is mounted, open or
     * not, and it reads no state.
     */
    method KeyDown(key: string) returns (requestClose: bool)
      ensures requestClose <==> key == CloseKey
    {
      requestClose := key == CloseKey;
    }

    /**
     * What the component renders for the `isOpen` prop and the optional
     * `footer` prop (`None` for any falsy value): nothing when closed;
     * otherwise a dialog at the current position whose body is the skeleton
     * while loading and the children afterwards, and whose footer is the
     * supplied one or else Cancel and OK, both of which ask to close.
     */
    function Render<F>(isOpen: bool, footer: Option<F>): (view: Option<Frame<F>>)
      reads this
      ensures view.None? <==> !isOpen
      ensures view.Some? ==> view.value.left == x && view.value.top == y
      ensures view.Some? ==> (view.value.body == Skeleton <==> isLoading)
      ensures view.Some? && footer.Some? ==> view.value.footer == Supplied(footer.value)
      ensures view.Some? && footer.None? ==>
        && view.value.footer.Default?
        && |view.value.footer.buttons| == 2
        && forall i :: 0 <= i < 2 ==> view.value.footer.buttons[i].onClick == RequestClose
    {
      if !isOpen then None
      else
        var body := if isLoading then Skeleton else Children;
        var foot := match footer
          case Some(node) => Supplied(node)
          case None => Default([Button("Cancel", RequestClose), Button("OK", RequestClose)]);
        Some(Frame(x, y, body, foot))
    }
  }

  /**
   * The handler compares the key name exactly: "Escape" asks to close, the
   * legacy name "Esc" and the lower-case "escape" do not.
   */
  method EscapeKeyNames(m: ModalState) returns (escape: bool, esc: bool, lower: bool)
    ensures escape && !esc && !lower
  {
    escape := m.KeyDown("Escape");
    esc := m.KeyDown("Esc");
    lower := m.KeyDown("escape");
  }

  /**
   * Grabbing the dialog and moving the pointer to where it grabbed leaves an
   * in-bounds dialog where it was.
   */
  method GrabAndHold(m: ModalState, clientX: real, clientY: real, viewport: Size, container: Size)
    requires m.InBounds(viewport, container)
    modifies m
    ensures m.x == old(m.x) && m.y == old(m.y) && m.isDragging
  {
    m.MouseDown(clientX, clientY);
    m.MouseMove(clientX, clientY, viewport, Some(container));
  }

  /**
   * With a fixed viewport and a container that fits in it, a drag gesture of
   * a grab, any number of moves and a release: after the first move every
   * position is in bounds, whatever the pointer did; with no move the dialog
   * stays where it was. The dialog ends idle.
   */
  method DragGesture(m: ModalState, down: (real, real), moves: seq<(real, real)>,
                     viewport: Size, container: Size)
    requires container.width <= viewport.width && container.height <= viewport.height
    modifies m
    ensures |moves| >= 1 ==> m.InBounds(viewport, container)
    ensures |moves| == 0 ==> m.x == old(m.x) && m.y == old(m.y)
    ensures !m.isDragging
    ensures m.isLoading == old(m.isLoading) && m.pendingTimers == old(m.pendingTimers)
  {
    m.MouseDown(down.0, down.1);
    var k := 0;
    while k < |moves|
      invariant 0 <= k <= |moves|
      invariant m.isDragging
      invariant k >= 1 ==> m.InBounds(viewport, container)
      invariant k == 0 ==> m.x == old(m.x) && m.y == old(m.y)
      invariant m.isLoading == old(m.isLoading) && m.pendingTimers == old(m.pendingTimers)
    {
      m.MouseMove(moves[k].0, moves[k].1, viewport, Some(container));
      k := k + 1;
    }
    m.MouseUp();
  }

  /**
   * Closing does not end a drag: the mouse-up listener is detached while the
   * dialog is closed and the open effect leaves the drag ref alone, so a
   * dialog closed with Escape in the middle of a drag reopens still dragging,
   * and the next move makes it follow the pointer with no button held.
   */
  method DragSurvivesReopen(m: ModalState, grab: (real, real), pointer: (real, real),
                            viewport: Size, container: Size)
    modifies m
    ensures m.isDragging
    ensures m.x == Clamp(pointer.0 - m.offsetX, (viewport.width - container.width) as real)
    ensures m.y == Clamp(pointer.1 - m.offsetY, (viewport.height - container.height) as real)
  {
    m.MouseDown(grab.0, grab.1);
    var close := m.KeyDown(CloseKey);
    assert close;
    m.OpenEffect(false, viewport);
    m.OpenEffect(true, viewport);
    m.MouseMove(pointer.0, pointer.1, viewport, Some(container));
  }

  /** A move after the release changes nothing. */
  method MoveAfterRelease(m: ModalState, clientX: real, clientY: real, viewport: Size)
    modifies m
    ensures !m.isDragging
    ensures m.x == old(m.x) && m.y == old(m.y)
    ensures m.offsetX == old(m.offsetX) && m.offsetY == old(m.offsetY)
  {
    m.MouseUp();
    m.MouseMove(clientX, clientY, viewport, None);
  }

  /** Releasing twice is the same as releasing once. */
  method ReleaseTwice(m: ModalState)
    modifies m
    ensures !m.isDragging
    ensures m.x == old(m.x) && m.y == old(m.y)
    ensures m.offsetX == old(m.offsetX) && m.offsetY == old(m.offsetY)
    ensures m.isLoading == old(m.isLoading) && m.pendingTimers == old(m.pendingTimers)
  {
    m.MouseUp();
    m.MouseUp();
  }

  /**
   * Closing does not cancel the loading timer: after open, close and reopen,
   * one timer firing ends the reopened dialog's loading while one timer is
   * still pending. Timers are counted, not named; since every timer waits the
   * same delay, the one that fires first is the earlier opening's.
   */
  method StaleTimerAfterReopen(m: ModalState, viewport: Size)
    modifies m
    ensures !m.isLoading && m.pendingTimers == old(m.pendingTimers) + 1
    ensures m.Render<string>(true, None).value.body == Children
  {
    m.OpenEffect(true, viewport);
    m.OpenEffect(false, viewport);
    m.OpenEffect(true, viewport);
    m.LoadDone();
  }
}

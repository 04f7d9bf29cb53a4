/** The tag balance checker for page templates. */
module TagBalance {
  import opened Clock

  datatype TagEvent = Open(tag: string) | Close(tag: string)

  datatype BalanceError = ExtraClosing(tag: string) | Mismatched(tag: string, top: string)

  predicate IsChecked(tag: string) {
    tag in {"div", "section", "main", "aside", "header", "nav", "table", "thead", "tbody", "tr", "td", "th"}
  }

  datatype Checker = Checker(stack: seq<string>, errors: seq<BalanceError>)

  /** Recovery after a mismatch: drop everything above the nearest such tag, and that tag. */
  function PopThrough(stack: seq<string>, tag: string): seq<string> {
    if stack == [] then []
    else if stack[|stack| - 1] == tag then stack[..|stack| - 1]
    else PopThrough(stack[..|stack| - 1], tag)
  }

  /** The recovery keeps exactly what lies below the nearest such tag, or nothing if there is none. */
  lemma {:induction false} PopThroughNearest(stack: seq<string>, tag: string) returns (k: int)
    ensures tag !in stack ==> PopThrough(stack, tag) == []
    ensures tag in stack ==>
              && 0 <= k < |stack|
              && stack[k] == tag
              && tag !in stack[k + 1..]
              && PopThrough(stack, tag) == stack[..k]
  {
    k := |stack| - 1;
    if stack != [] && stack[k] != tag {
      var n := k;
      k := PopThroughNearest(stack[..n], tag);
      if tag in stack {
        assert stack == stack[..n] + [stack[n]];
        assert stack[k + 1..] == stack[..n][k + 1..] + [stack[n]];
        assert stack[..n][..k] == stack[..k];
      }
    }
  }

  function Handled(c: Checker, e: TagEvent): Checker {
    if !IsChecked(e.tag) then c
    else
      match e
      case Open(tag) => c.(stack := c.stack + [tag])
      case Close(tag) =>
        if c.stack == [] then c.(errors := c.errors + [ExtraClosing(tag)])
        else
          var top := c.stack[|c.stack| - 1];
          if top == tag then c.(stack := c.stack[..|c.stack| - 1])
          else Checker(PopThrough(c.stack, tag), c.errors + [Mismatched(tag, top)])
  }

  function Fed(c: Checker, events: seq<TagEvent>): Checker
    decreases |events|
  {
    if events == [] then c else Fed(Handled(c, events[0]), events[1..])
  }

  /** The parser object that the HTML events are fed to. */
  class BalanceParser {
    var stack: seq<string>
    var errors: seq<BalanceError>

    constructor ()
      ensures Value() == Checker([], [])
    {
      stack, errors := [], [];
    }

    function Value(): Checker
      reads this
    {
      Checker(stack, errors)
    }

    method HandleStartTag(tag: string)
      modifies this
      ensures Value() == Handled(old(Value()), Open(tag))
    {
      if IsChecked(tag) {
        stack := stack + [tag];
      }
    }

    method HandleEndTag(tag: string)
      modifies this
      ensures Value() == Handled(old(Value()), Close(tag))
    {
      if !IsChecked(tag) {
        return;
      }
      if stack == [] {
        errors := errors + [ExtraClosing(tag)];
        return;
      }
      if stack[|stack| - 1] == tag {
        stack := stack[..|stack| - 1];
        return;
      }
      errors := errors + [Mismatched(tag, stack[|stack| - 1])];
      while stack != [] && stack[|stack| - 1] != tag
        invariant PopThrough(stack, tag) == PopThrough(old(stack), tag)
        invariant errors == old(errors) + [Mismatched(tag, old(stack)[|old(stack)| - 1])]
        decreases |stack|
      {
        stack := stack[..|stack| - 1];
      }
      if stack != [] {
        stack := stack[..|stack| - 1];
      }
    }

    method Feed(events: seq<TagEvent>)
      modifies this
      ensures Value() == Fed(old(Value()), events)
    {
      for i := 0 to |events|
        invariant Fed(Value(), events[i..]) == Fed(old(Value()), events)
      {
        match events[i] {
          case Open(tag) => HandleStartTag(tag);
          case Close(tag) => HandleEndTag(tag);
        }
        assert events[i..][1..] == events[i + 1..];
      }
    }
  }

  /** A lone opening tag stays open exactly if it is one of the twelve layout and table tags. */
  lemma CheckedTagsStayOpen(tag: string)
    ensures Fed(Checker([], []), [Open(tag)]).stack == [tag] <==>
            || tag == "div" || tag == "section" || tag == "main" || tag == "aside" || tag == "header" || tag == "nav"
            || tag == "table" || tag == "thead" || tag == "tbody" || tag == "tr" || tag == "td" || tag == "th"
    ensures Fed(Checker([], []), [Close(tag)]).errors == (if IsChecked(tag) then [ExtraClosing(tag)] else [])
  {
    assert Fed(Handled(Checker([], []), Open(tag)), []) == Handled(Checker([], []), Open(tag));
    assert Fed(Handled(Checker([], []), Close(tag)), []) == Handled(Checker([], []), Close(tag));
  }

  // ----- well-nested words

  function CheckedOnly(events: seq<TagEvent>): seq<TagEvent> {
    if events == [] then []
    else if IsChecked(events[0].tag) then [events[0]] + CheckedOnly(events[1..])
    else CheckedOnly(events[1..])
  }

  /** Empty, or an opening tag, a well-nested word, its closing tag, and a well-nested rest. */
  predicate WellNested(w: seq<TagEvent>)
    decreases |w|
  {
    w == [] ||
    (w[0].Open? && exists k :: 1 <= k < |w| && w[k] == Close(w[0].tag) && WellNested(w[1..k]) && WellNested(w[k + 1..]))
  }

  /** Error-free processing: the final stack, or nothing at the first error. */
  function Nest(stack: seq<string>, w: seq<TagEvent>): Option<seq<string>>
    decreases |w|
  {
    if w == [] then Some(stack)
    else
      match w[0]
      case Open(tag) => Nest(stack + [tag], w[1..])
      case Close(tag) =>
        if stack != [] && stack[|stack| - 1] == tag then Nest(stack[..|stack| - 1], w[1..]) else None
  }

  /** Errors are never withdrawn. */
  lemma {:induction false} ErrorsGrow(c: Checker, events: seq<TagEvent>)
    ensures |Fed(c, events).errors| >= |c.errors|
    decreases |events|
  {
    if events != [] {
      ErrorsGrow(Handled(c, events[0]), events[1..]);
    }
  }

  /** The checker reports nothing exactly when error-free processing of the checked tags succeeds. */
  lemma {:induction false} CleanIffNests(stack: seq<string>, events: seq<TagEvent>)
    ensures var end := Fed(Checker(stack, []), events);
            var nested := Nest(stack, CheckedOnly(events));
            && (end.errors == [] <==> nested.Some?)
            && (end.errors == [] ==> end.stack == nested.value)
    decreases |events|
  {
    if events != [] {
      var e := events[0];
      var c := Handled(Checker(stack, []), e);
      if IsChecked(e.tag) {
        assert CheckedOnly(events)[1..] == CheckedOnly(events[1..]);
      }
      if c.errors == [] {
        CleanIffNests(c.stack, events[1..]);
      } else {
        ErrorsGrow(c, events[1..]);
      }
    }
  }

  lemma {:induction false} NestConcat(stack: seq<string>, u: seq<TagEvent>, v: seq<TagEvent>)
    requires Nest(stack, u).Some?
    ensures Nest(stack, u + v) == Nest(Nest(stack, u).value, v)
    decreases |u|
  {
    if u == [] {
      assert u + v == v;
    } else {
      assert (u + v)[1..] == u[1..] + v;
      match u[0]
      case Open(tag) => NestConcat(stack + [tag], u[1..], v);
      case Close(_) => NestConcat(stack[..|stack| - 1], u[1..], v);
    }
  }

  /** An opening tag, a word that leaves the stack alone and the matching closing tag cancel out. */
  lemma NestPair(stack: seq<string>, w: seq<TagEvent>, k: int)
    requires 1 <= k < |w| && w[0].Open? && w[k] == Close(w[0].tag)
    requires Nest(stack + [w[0].tag], w[1..k]) == Some(stack + [w[0].tag])
    ensures Nest(stack, w) == Nest(stack, w[k + 1..])
  {
    var inner := stack + [w[0].tag];
    assert w[1..] == w[1..k] + w[k..];
    NestConcat(inner, w[1..k], w[k..]);
    assert w[k..][1..] == w[k + 1..];
    assert inner[..|inner| - 1] == stack;
  }

  /** A well-nested word leaves any stack as it found it. */
  lemma {:induction false} WellNestedRestores(stack: seq<string>, w: seq<TagEvent>)
    requires WellNested(w)
    ensures Nest(stack, w) == Some(stack)
    decreases |w|
  {
    if w != [] {
      var k :| 1 <= k < |w| && w[k] == Close(w[0].tag) && WellNested(w[1..k]) && WellNested(w[k + 1..]);
      WellNestedRestores(stack + [w[0].tag], w[1..k]);
      NestPair(stack, w, k);
      WellNestedRestores(stack, w[k + 1..]);
    }
  }

  /** When the bottom tag of the stack gets closed, its closing tag splits the word. */
  lemma {:induction false} BottomIsClosed(tag: string, stack: seq<string>, w: seq<TagEvent>) returns (k: int)
    requires Nest([tag] + stack, w) == Some([])
    ensures 0 <= k < |w| && w[k] == Close(tag)
    ensures Nest(stack, w[..k]) == Some([]) && Nest([], w[k + 1..]) == Some([])
    decreases |w|
  {
    var whole := [tag] + stack;
    assert whole != [];
    match w[0]
    case Open(t) =>
      assert whole + [t] == [tag] + (stack + [t]);
      k := BottomIsClosed(tag, stack + [t], w[1..]);
      assert w[1..][..k] == w[..k + 1][1..] && w[1..][k + 1..] == w[k + 2..];
      k := k + 1;
    case Close(t) =>
      if stack == [] {
        assert whole[..|whole| - 1] == [];
        assert w[..0] == [];
        k := 0;
      } else {
        assert whole[..|whole| - 1] == [tag] + stack[..|stack| - 1];
        k := BottomIsClosed(tag, stack[..|stack| - 1], w[1..]);
        assert w[1..][..k] == w[..k + 1][1..] && w[1..][k + 1..] == w[k + 2..];
        k := k + 1;
      }
  }

  lemma {:induction false} NestsToEmptyIsWellNested(w: seq<TagEvent>)
    requires Nest([], w) == Some([])
    ensures WellNested(w)
    decreases |w|
  {
    if w != [] {
      var tag := w[0].tag;
      assert [] + [tag] == [tag] + [];
      var k := BottomIsClosed(tag, [], w[1..]);
      NestsToEmptyIsWellNested(w[1..][..k]);
      NestsToEmptyIsWellNested(w[1..][k + 1..]);
      assert w[1..][..k] == w[1..k + 1] && w[1..][k + 1..] == w[k + 2..];
      assert w[k + 1] == Close(tag);
    }
  }

  /** The checker accepts a template exactly when its checked tags form a well-nested word. */
  lemma BalancedIffWellNested(events: seq<TagEvent>)
    ensures Fed(Checker([], []), events) == Checker([], []) <==> WellNested(CheckedOnly(events))
  {
    CleanIffNests([], events);
    if WellNested(CheckedOnly(events)) {
      WellNestedRestores([], CheckedOnly(events));
    }
    if Nest([], CheckedOnly(events)) == Some([]) {
      NestsToEmptyIsWellNested(CheckedOnly(events));
    }
  }

  // ----- counting

  function Count(events: seq<TagEvent>, e: TagEvent): (n: nat)
    ensures n <= |events|
  {
    if events == [] then 0 else (if events[0] == e then 1 else 0) + Count(events[1..], e)
  }

  lemma {:induction false} CheckedCount(events: seq<TagEvent>, e: TagEvent)
    requires IsChecked(e.tag)
    ensures Count(CheckedOnly(events), e) == Count(events, e)
    decreases |events|
  {
    if events != [] {
      CheckedCount(events[1..], e);
      if IsChecked(events[0].tag) {
        assert CheckedOnly(events)[1..] == CheckedOnly(events[1..]);
      }
    }
  }

  /** What is on the stack plus what opens equals what closes plus what remains. */
  lemma {:induction false} NestConserves(stack: seq<string>, w: seq<TagEvent>, tag: string)
    requires Nest(stack, w).Some?
    ensures multiset(stack)[tag] + Count(w, Open(tag)) == multiset(Nest(stack, w).value)[tag] + Count(w, Close(tag))
    decreases |w|
  {
    if w != [] {
      match w[0]
      case Open(t) => NestConserves(stack + [t], w[1..], tag);
      case Close(t) =>
        assert stack == stack[..|stack| - 1] + [t];
        NestConserves(stack[..|stack| - 1], w[1..], tag);
    }
  }

  /** In an accepted template every checked tag opens as often as it closes. */
  lemma BalancedTagsPairUp(events: seq<TagEvent>, tag: string)
    requires Fed(Checker([], []), events) == Checker([], []) && IsChecked(tag)
    ensures Count(events, Open(tag)) == Count(events, Close(tag))
  {
    CleanIffNests([], events);
    NestConserves([], CheckedOnly(events), tag);
    CheckedCount(events, Open(tag));
    CheckedCount(events, Close(tag));
  }
}

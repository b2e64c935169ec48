/**
 * The formatted-text builder: text is appended as is, and formatting spans are
 * opened and closed on a stack so that the output is always well nested, even
 * when a span that is not the innermost one is cancelled.
 *
 * The builder is specified by a value model (`Builder`, `Step`): the marks
 * emitted so far (text, opening and closing tags) and the stack of open
 * spans. `Unclosed` replays the marks and says which spans are still open, or
 * that some closing tag did not match; the lemmas show that every operation
 * keeps the marks consistent with the stack, so `done` always yields well
 * nested output. The class `FormattedTextBuilder` is the mutable builder and
 * is proved against the value model.
 */
module FormattedText {
  import opened Wrappers

  /** The formatting control codes: bold and italics. */
  datatype ControlKind = Bold | Italics

  function StartTag(k: ControlKind): string {
    match k
    case Bold => "<b>"
    case Italics => "<i>"
  }

  function EndTag(k: ControlKind): string {
    match k
    case Bold => "</b>"
    case Italics => "</i>"
  }

  /** One piece of emitted output. */
  datatype Mark = Content(text: string) | Open(kind: ControlKind) | Close(kind: ControlKind)

  function MarkText(m: Mark): string {
    match m
    case Content(t) => t
    case Open(k) => StartTag(k)
    case Close(k) => EndTag(k)
  }

  /** The texts of `xs`, one after the other. */
  function Flatten<T>(xs: seq<T>, f: T -> string): string
    decreases |xs|
  {
    if xs == [] then "" else f(xs[0]) + Flatten(xs[1..], f)
  }

  /** The output text of a sequence of marks. */
  function Render(ms: seq<Mark>): string {
    Flatten(ms, MarkText)
  }

  lemma {:induction false} AppendAssoc<T>(x: seq<T>, y: seq<T>, z: seq<T>)
    ensures (x + y) + z == x + (y + z)
  {
  }

  lemma {:induction false} FlattenConcat<T>(a: seq<T>, b: seq<T>, f: T -> string)
    ensures Flatten(a + b, f) == Flatten(a, f) + Flatten(b, f)
    decreases |a|
  {
    if a == [] {
      assert a + b == b;
    } else {
      FlattenConcat(a[1..], b, f);
      assert (a + b)[1..] == a[1..] + b;
      assert (a + b)[0] == a[0];
      AppendAssoc(f(a[0]), Flatten(a[1..], f), Flatten(b, f));
    }
  }

  lemma {:induction false} FlattenSnoc<T>(xs: seq<T>, x: T, f: T -> string)
    ensures Flatten(xs + [x], f) == Flatten(xs, f) + f(x)
  {
    FlattenConcat(xs, [x], f);
    assert [x][1..] == [];
    assert Flatten([x], f) == f(x) + "";
  }

  /** The text of marks appended one after the other is the text of the first followed by that of the second. */
  lemma {:induction false} RenderConcat(a: seq<Mark>, b: seq<Mark>)
    ensures Render(a + b) == Render(a) + Render(b)
  {
    FlattenConcat(a, b, MarkText);
  }

  /** One more mark adds its text at the end. */
  lemma {:induction false} RenderSnoc(ms: seq<Mark>, m: Mark)
    ensures Render(ms + [m]) == Render(ms) + MarkText(m)
  {
    FlattenSnoc(ms, m, MarkText);
  }

  /**
   * Replays the marks: the spans left open, innermost last, or `None` when a
   * closing tag does not close the innermost open span.
   */
  function Unclosed(ms: seq<Mark>): Option<seq<ControlKind>>
    decreases |ms|
  {
    if ms == [] then Some([])
    else
      match Unclosed(ms[..|ms| - 1])
      case None => None
      case Some(open) =>
        match ms[|ms| - 1]
        case Content(_) => Some(open)
        case Open(k) => Some(open + [k])
        case Close(k) =>
          if open != [] && open[|open| - 1] == k then Some(open[..|open| - 1]) else None
  }

  /** Output whose every span is closed, in last-opened-first-closed order. */
  predicate WellNested(ms: seq<Mark>) {
    Unclosed(ms) == Some([])
  }

  /** The closing marks for the open spans `seg`, innermost (last) first. */
  function Closes(seg: seq<ControlKind>): seq<Mark>
    decreases |seg|
  {
    if seg == [] then [] else Closes(seg[1..]) + [Close(seg[0])]
  }

  /** The opening marks for the spans `seg`, in order. */
  function Opens(seg: seq<ControlKind>): seq<Mark>
    decreases |seg|
  {
    if seg == [] then [] else Opens(seg[..|seg| - 1]) + [Open(seg[|seg| - 1])]
  }

  /** Closing the innermost spans `seg` leaves exactly the spans below them open. */
  lemma {:induction false} ClosesPop(ms: seq<Mark>, below: seq<ControlKind>, seg: seq<ControlKind>)
    requires Unclosed(ms) == Some(below + seg)
    ensures Unclosed(ms + Closes(seg)) == Some(below)
    decreases |seg|
  {
    if seg == [] {
      assert ms + Closes(seg) == ms;
      assert below + seg == below;
    } else {
      var below' := below + [seg[0]];
      assert seg == [seg[0]] + seg[1..];
      AppendAssoc(below, [seg[0]], seg[1..]);
      ClosesPop(ms, below', seg[1..]);
      var front := ms + Closes(seg[1..]);
      AppendAssoc(ms, Closes(seg[1..]), [Close(seg[0])]);
      UnclosedSnoc(front, Close(seg[0]));
      assert below'[..|below'| - 1] == below;
    }
  }

  /** Opening the spans `seg` pushes them, in order, on top of the open spans. */
  lemma {:induction false} OpensPush(ms: seq<Mark>, open: seq<ControlKind>, seg: seq<ControlKind>)
    requires Unclosed(ms) == Some(open)
    ensures Unclosed(ms + Opens(seg)) == Some(open + seg)
    decreases |seg|
  {
    if seg == [] {
      assert ms + Opens(seg) == ms;
      assert open + seg == open;
    } else {
      var seg', x := seg[..|seg| - 1], seg[|seg| - 1];
      OpensPush(ms, open, seg');
      var front := ms + Opens(seg');
      AppendAssoc(ms, Opens(seg'), [Open(x)]);
      UnclosedSnoc(front, Open(x));
      assert seg == seg' + [x];
      AppendAssoc(open, seg', [x]);
    }
  }

  /** The text of the closing marks for `seg`. */
  function ClosingText(seg: seq<ControlKind>): string
    decreases |seg|
  {
    if seg == [] then "" else ClosingText(seg[1..]) + EndTag(seg[0])
  }

  /** The text of the opening marks for `seg`. */
  function OpeningText(seg: seq<ControlKind>): string
    decreases |seg|
  {
    if seg == [] then "" else OpeningText(seg[..|seg| - 1]) + StartTag(seg[|seg| - 1])
  }

  lemma {:induction false} RenderCloses(seg: seq<ControlKind>)
    ensures Render(Closes(seg)) == ClosingText(seg)
    decreases |seg|
  {
    if seg != [] {
      RenderCloses(seg[1..]);
      RenderSnoc(Closes(seg[1..]), Close(seg[0]));
    }
  }

  lemma {:induction false} RenderOpens(seg: seq<ControlKind>)
    ensures Render(Opens(seg)) == OpeningText(seg)
    decreases |seg|
  {
    if seg != [] {
      var seg' := seg[..|seg| - 1];
      RenderOpens(seg');
      RenderSnoc(Opens(seg'), Open(seg[|seg| - 1]));
    }
  }

  /** Closing one more span below `f[j..]` appends its closing mark and tag. */
  lemma {:induction false} ClosesStep(f: seq<ControlKind>, j: nat)
    requires 0 < j <= |f|
    ensures Closes(f[j - 1..]) == Closes(f[j..]) + [Close(f[j - 1])]
    ensures ClosingText(f[j - 1..]) == ClosingText(f[j..]) + EndTag(f[j - 1])
  {
    assert f[j - 1..][1..] == f[j..];
  }

  /** Appending one mark replays as one more step. */
  lemma {:induction false} UnclosedSnoc(ms: seq<Mark>, m: Mark)
    ensures Unclosed(ms + [m]) ==
              match Unclosed(ms)
              case None => None
              case Some(open) =>
                match m
                case Content(_) => Some(open)
                case Open(k) => Some(open + [k])
                case Close(k) =>
                  if open != [] && open[|open| - 1] == k then Some(open[..|open| - 1]) else None
  {
    assert (ms + [m])[..|ms|] == ms;
  }

  /** The innermost (last) position of `k` on the stack. */
  function LastIndex(s: seq<ControlKind>, k: ControlKind): (i: nat)
    requires k in s
    ensures i < |s| && s[i] == k
    ensures forall j :: i < j < |s| ==> s[j] != k
    decreases |s|
  {
    if s[|s| - 1] == k then |s| - 1 else LastIndex(s[..|s| - 1], k)
  }

  /** A suffix of a sequence is its first element followed by the rest. */
  lemma {:induction false} SliceCons<T>(s: seq<T>, n: nat)
    requires n < |s|
    ensures s[n..] == [s[n]] + s[n + 1..]
  {
    assert s[n..][0] == s[n] && s[n..][1..] == s[n + 1..];
  }

  /** The value model of a builder: marks emitted so far and the open spans, innermost last. */
  datatype Builder = Builder(marks: seq<Mark>, formatting: seq<ControlKind>)

  const EMPTY: Builder := Builder([], [])

  /** The emitted marks agree with the stack of open spans. */
  predicate Consistent(b: Builder) {
    Unclosed(b.marks) == Some(b.formatting)
  }

  /** The builder's text: what has been emitted, with no closing tags added. */
  function Text(b: Builder): string {
    Render(b.marks)
  }

  /** The builder operations. */
  datatype Op =
    | AppendText(s: string)
    | AppendChar(c: char)
    | Apply(kind: ControlKind)
    | Cancel(kind: ControlKind, reopen: bool)
    | Done

  /** `cancel(k, reopen)` on the value model: a kind that is not open is left alone. */
  function CancelSpan(b: Builder, k: ControlKind, reopen: bool): Builder {
    if k !in b.formatting then b
    else
      var i := LastIndex(b.formatting, k);
      var inner := b.formatting[i + 1..];
      Builder(b.marks + Closes(b.formatting[i..]) + (if reopen then Opens(inner) else []),
              b.formatting[..i] + (if reopen then inner else []))
  }

  /** The tags `cancel(k, reopen)` emits when the spans `f` are open. */
  function CancelText(f: seq<ControlKind>, k: ControlKind, reopen: bool): string {
    if k !in f then ""
    else
      var i := LastIndex(f, k);
      ClosingText(f[i..]) + (if reopen then OpeningText(f[i + 1..]) else "")
  }

  function Step(b: Builder, op: Op): Builder {
    match op
    case AppendText(s) => Builder(b.marks + [Content(s)], b.formatting)
    case AppendChar(c) => Builder(b.marks + [Content([c])], b.formatting)
    case Apply(k) => Builder(b.marks + [Open(k)], b.formatting + [k])
    case Cancel(k, reopen) => CancelSpan(b, k, reopen)
    case Done => Builder(b.marks + Closes(b.formatting), [])
  }

  /** The builder after a sequence of operations, in order. */
  function Run(b: Builder, ops: seq<Op>): Builder
    decreases |ops|
  {
    if ops == [] then b else Step(Run(b, ops[..|ops| - 1]), ops[|ops| - 1])
  }

  /** Every operation keeps the marks consistent with the stack. */
  lemma {:induction false} StepKeepsConsistent(b: Builder, op: Op)
    requires Consistent(b)
    ensures Consistent(Step(b, op))
  {
    match op
    case AppendText(s) => UnclosedSnoc(b.marks, Content(s));
    case AppendChar(c) => UnclosedSnoc(b.marks, Content([c]));
    case Apply(k) => UnclosedSnoc(b.marks, Open(k));
    case Cancel(k, reopen) => CancelKeepsConsistent(b, k, reopen);
    case Done =>
      assert b.formatting == [] + b.formatting;
      ClosesPop(b.marks, [], b.formatting);
  }

  /** `cancel` keeps the marks consistent with the stack. */
  lemma {:induction false} CancelKeepsConsistent(b: Builder, k: ControlKind, reopen: bool)
    requires Consistent(b)
    ensures Consistent(CancelSpan(b, k, reopen))
  {
    if k in b.formatting {
      var i := LastIndex(b.formatting, k);
      var f := b.formatting;
      assert f == f[..i] + f[i..];
      ClosesPop(b.marks, f[..i], f[i..]);
      var inner := f[i + 1..];
      var closed := b.marks + Closes(f[i..]);
      if reopen {
        OpensPush(closed, f[..i], inner);
        assert CancelSpan(b, k, reopen) == Builder(closed + Opens(inner), f[..i] + inner);
      } else {
        assert CancelSpan(b, k, reopen) == Builder(closed + [], f[..i] + []);
        assert closed + [] == closed && f[..i] + [] == f[..i];
      }
    }
  }

  /** The text `cancel` adds is the closing tags of the spans it closes, then the opening tags of those it reopens. */
  lemma {:induction false} CancelEmits(b: Builder, k: ControlKind, reopen: bool)
    ensures Text(CancelSpan(b, k, reopen)) == Text(b) + CancelText(b.formatting, k, reopen)
  {
    var f := b.formatting;
    if k !in f {
      assert Text(b) + "" == Text(b);
    } else {
      var i := LastIndex(f, k);
      var closed := b.marks + Closes(f[i..]);
      var reopened: seq<Mark> := if reopen then Opens(f[i + 1..]) else [];
      RenderConcat(closed, reopened);
      RenderConcat(b.marks, Closes(f[i..]));
      RenderCloses(f[i..]);
      if reopen {
        RenderOpens(f[i + 1..]);
      }
      AppendAssoc(Render(b.marks), ClosingText(f[i..]), Render(reopened));
    }
  }

  /** Any sequence of operations on a new builder keeps it consistent. */
  lemma {:induction false} RunKeepsConsistent(b: Builder, ops: seq<Op>)
    requires Consistent(b)
    ensures Consistent(Run(b, ops))
    decreases |ops|
  {
    if ops != [] {
      RunKeepsConsistent(b, ops[..|ops| - 1]);
      StepKeepsConsistent(Run(b, ops[..|ops| - 1]), ops[|ops| - 1]);
    }
  }

  /** `done` closes every open span, so its output is well nested whatever came before. */
  lemma {:induction false} DoneIsWellNested(ops: seq<Op>)
    ensures WellNested(Run(EMPTY, ops + [Done]).marks)
    ensures Run(EMPTY, ops + [Done]).formatting == []
  {
    RunKeepsConsistent(EMPTY, ops);
    assert (ops + [Done])[..|ops|] == ops;
    StepKeepsConsistent(Run(EMPTY, ops), Done);
  }

  /** `done` is idempotent: a second call emits nothing and changes nothing. */
  lemma {:induction false} DoneIsIdempotent(b: Builder)
    ensures Step(Step(b, Done), Done) == Step(b, Done)
  {
    assert Closes([]) == [];
    assert Step(b, Done).marks + [] == Step(b, Done).marks;
  }

  /**
   * `cancel(k, true)` closes the innermost `k` span only: every other open span
   * stays open, in the same order, and `k` stays active exactly when it was open
   * more than once.
   */
  lemma {:induction false} CancelReopenClosesOne(b: Builder, k: ControlKind)
    requires k in b.formatting
    ensures multiset(Step(b, Cancel(k, true)).formatting)
            == multiset(b.formatting) - multiset{k}
    ensures k in Step(b, Cancel(k, true)).formatting <==> multiset(b.formatting)[k] > 1
    ensures exists i :: 0 <= i < |b.formatting| && b.formatting[i] == k && k !in b.formatting[i + 1..]
                        && Step(b, Cancel(k, true)).formatting == b.formatting[..i] + b.formatting[i + 1..]
  {
    var f := b.formatting;
    var i := LastIndex(f, k);
    assert k !in f[i + 1..];
    var below, inner := f[..i], f[i + 1..];
    assert f == below + [k] + inner;
    assert multiset(f) == multiset(below) + multiset{k} + multiset(inner);
    var g := Step(b, Cancel(k, true)).formatting;
    assert g == below + inner;
    assert multiset(g) == multiset(below) + multiset(inner);
    assert multiset(g) == multiset(f) - multiset{k};
    assert k in g <==> multiset(g)[k] > 0;
  }

  /**
   * `cancel(k, false)` closes the innermost `k` span and every span opened
   * after it: what stays open is a prefix of what was open, with one `k` fewer.
   */
  lemma {:induction false} CancelNoReopenClosesInner(b: Builder, k: ControlKind)
    requires k in b.formatting
    ensures |Step(b, Cancel(k, false)).formatting| < |b.formatting|
    ensures Step(b, Cancel(k, false)).formatting <= b.formatting
    ensures multiset(Step(b, Cancel(k, false)).formatting)[k] == multiset(b.formatting)[k] - 1
  {
    var f := b.formatting;
    var i := LastIndex(f, k);
    assert f == f[..i] + [k] + f[i + 1..];
    assert multiset(f)[k] == multiset(f[..i])[k] + 1 + multiset(f[i + 1..])[k];
    assert k !in f[i + 1..];
  }

  /** Appending plain strings, with no formatting, yields exactly their concatenation. */
  function Concat(ts: seq<string>): string
    decreases |ts|
  {
    if ts == [] then "" else Concat(ts[..|ts| - 1]) + ts[|ts| - 1]
  }

  function AppendAll(ts: seq<string>): (ops: seq<Op>)
    ensures |ops| == |ts|
    decreases |ts|
  {
    if ts == [] then [] else AppendAll(ts[..|ts| - 1]) + [AppendText(ts[|ts| - 1])]
  }

  lemma {:induction false} PlainTextIsKept(ts: seq<string>)
    ensures Run(EMPTY, AppendAll(ts)).formatting == []
    ensures Text(Run(EMPTY, AppendAll(ts))) == Concat(ts)
    decreases |ts|
  {
    if ts != [] {
      var ops := AppendAll(ts);
      assert ops[..|ops| - 1] == AppendAll(ts[..|ts| - 1]);
      PlainTextIsKept(ts[..|ts| - 1]);
      RenderSnoc(Run(EMPTY, ops[..|ops| - 1]).marks, Content(ts[|ts| - 1]));
    }
  }

  /** Appending a string character by character, with no formatting, yields that string. */
  function AppendChars(s: string): (ops: seq<Op>)
    ensures |ops| == |s|
    decreases |s|
  {
    if s == [] then [] else AppendChars(s[..|s| - 1]) + [AppendChar(s[|s| - 1])]
  }

  lemma {:induction false} PlainCharsAreKept(s: string)
    ensures Run(EMPTY, AppendChars(s)).formatting == []
    ensures Text(Run(EMPTY, AppendChars(s))) == s
    decreases |s|
  {
    if s != [] {
      var ops := AppendChars(s);
      assert ops[..|ops| - 1] == AppendChars(s[..|s| - 1]);
      PlainCharsAreKept(s[..|s| - 1]);
      RenderSnoc(Run(EMPTY, ops[..|ops| - 1]).marks, Content([s[|s| - 1]]));
      assert s == s[..|s| - 1] + [s[|s| - 1]];
    }
  }

  /** `FormattedTextBuilder`: the output buffer and the stack of open spans, updated in place. */
  class FormattedTextBuilder {
    var text: string
    var formatting: seq<ControlKind>
    ghost var marks: seq<Mark>

    ghost predicate Valid()
      reads this
    {
      text == Render(marks) && Unclosed(marks) == Some(formatting)
    }

    ghost function Model(): Builder
      reads this
    {
      Builder(marks, formatting)
    }

    constructor ()
      ensures Valid() && Model() == EMPTY && text == ""
    {
      text, formatting, marks := "", [], [];
    }

    /** `append(text)` */
    method Append(s: string)
      requires Valid()
      modifies this
      ensures Valid() && Model() == Step(old(Model()), Op.AppendText(s))
      ensures text == old(text) + s
    {
      UnclosedSnoc(marks, Content(s));
      RenderSnoc(marks, Content(s));
      text := text + s;
      marks := marks + [Content(s)];
    }

    /** `append(char)` */
    method AppendChar(c: char)
      requires Valid()
      modifies this
      ensures Valid() && Model() == Step(old(Model()), Op.AppendChar(c))
      ensures text == old(text) + [c]
    {
      UnclosedSnoc(marks, Content([c]));
      RenderSnoc(marks, Content([c]));
      text := text + [c];
      marks := marks + [Content([c])];
    }

    /** Emits the opening tag of `k` and pushes `k`. */
    method PushSpan(k: ControlKind)
      modifies this
      ensures formatting == old(formatting) + [k]
      ensures marks == old(marks) + [Open(k)] && text == old(text) + StartTag(k)
    {
      text := text + StartTag(k);
      formatting := formatting + [k];
      marks := marks + [Open(k)];
    }

    /** Pops the innermost open span, emits its closing tag and returns its kind. */
    method PopSpan() returns (k: ControlKind)
      requires formatting != []
      modifies this
      ensures k == old(formatting)[|old(formatting)| - 1]
      ensures formatting == old(formatting)[..|old(formatting)| - 1]
      ensures marks == old(marks) + [Close(k)] && text == old(text) + EndTag(k)
    {
      k := formatting[|formatting| - 1];
      text := text + EndTag(k);
      formatting := formatting[..|formatting| - 1];
      marks := marks + [Close(k)];
    }

    /** `apply(k)`: opens a span of kind `k` inside the open ones. */
    method Apply(k: ControlKind)
      requires Valid()
      modifies this
      ensures Valid() && Model() == Step(old(Model()), Op.Apply(k))
      ensures text == old(text) + StartTag(k) && formatting == old(formatting) + [k]
      ensures IsActive(k) && forall j :: j != k ==> (IsActive(j) <==> old(IsActive(j)))
    {
      UnclosedSnoc(marks, Open(k));
      RenderSnoc(marks, Open(k));
      PushSpan(k);
    }

    /** `isActive(k)`: some span of kind `k` is open. */
    predicate IsActive(k: ControlKind)
      reads this
    {
      k in formatting
    }

    /**
     * The builder started with open spans `f`, marks `m0` and text `t0`, and
     * has since closed the spans `f[n..]`, innermost first.
     */
    ghost predicate Popped(f: seq<ControlKind>, m0: seq<Mark>, t0: string, n: nat)
      reads this
    {
      n <= |f| && formatting == f[..n]
      && marks == m0 + Closes(f[n..]) && text == t0 + ClosingText(f[n..])
    }

    /** Closes one more span, the innermost still open. */
    method PopOne(ghost f: seq<ControlKind>, ghost m0: seq<Mark>, ghost t0: string, ghost n: nat)
      returns (top: ControlKind)
      requires Popped(f, m0, t0, n) && 0 < n
      modifies this
      ensures Popped(f, m0, t0, n - 1) && top == f[n - 1]
    {
      ClosesStep(f, n);
      assert f[..n][..n - 1] == f[..n - 1];
      top := PopSpan();
    }

    /**
     * Pops spans from the innermost down to and including the innermost `k`
     * span, emitting their closing tags, and returns the spans popped above it.
     */
    method PopThrough(k: ControlKind) returns (rewind: seq<ControlKind>)
      requires k in formatting
      modifies this
      ensures var i := LastIndex(old(formatting), k);
              && formatting == old(formatting)[..i] && rewind == old(formatting)[i + 1..]
              && marks == old(marks) + Closes(old(formatting)[i..])
              && text == old(text) + ClosingText(old(formatting)[i..])
    {
      ghost var f, m0, t0 := formatting, marks, text;
      ghost var i := LastIndex(f, k);
      assert f[|f|..] == [] && f[..|f|] == f;
      assert Popped(f, m0, t0, |f|);
      rewind := [];
      var top := PopOne(f, m0, t0, |f|);
      ghost var n := |f| - 1;
      while top != k
        invariant i <= n < |f| && Popped(f, m0, t0, n)
        invariant top == f[n] && rewind == f[n + 1..]
        decreases n
      {
        SliceCons(f, n);
        rewind := [top] + rewind;
        top := PopOne(f, m0, t0, n);
        n := n - 1;
      }
      assert n == i;
    }

    /**
     * Closes the open spans from the innermost down to and including the
     * innermost `k` span, and returns the spans closed above it, in order.
     */
    method Unwind(k: ControlKind) returns (rewind: seq<ControlKind>)
      requires Valid() && k in formatting
      modifies this
      ensures Valid()
      ensures var i := LastIndex(old(formatting), k);
              && formatting == old(formatting)[..i] && rewind == old(formatting)[i + 1..]
              && marks == old(marks) + Closes(old(formatting)[i..])
              && text == old(text) + ClosingText(old(formatting)[i..])
    {
      ghost var f, m0 := formatting, marks;
      ghost var i := LastIndex(f, k);
      assert f == f[..i] + f[i..];
      ClosesPop(m0, f[..i], f[i..]);
      RenderConcat(m0, Closes(f[i..]));
      RenderCloses(f[i..]);
      rewind := PopThrough(k);
    }

    /** Pushes the spans `seg`, in order, emitting their opening tags. */
    method PushAll(seg: seq<ControlKind>)
      modifies this
      ensures formatting == old(formatting) + seg
      ensures marks == old(marks) + Opens(seg) && text == old(text) + OpeningText(seg)
    {
      ghost var f, m0, t0 := formatting, marks, text;
      var n := 0;
      while n < |seg|
        invariant 0 <= n <= |seg|
        invariant formatting == f + seg[..n]
        invariant marks == m0 + Opens(seg[..n]) && text == t0 + OpeningText(seg[..n])
      {
        assert seg[..n + 1][..n] == seg[..n];
        PushSpan(seg[n]);
        n := n + 1;
      }
      assert seg[..n] == seg;
    }

    /** Opens the spans `seg` again, in order. */
    method Reopen(seg: seq<ControlKind>)
      requires Valid()
      modifies this
      ensures Valid()
      ensures formatting == old(formatting) + seg
      ensures marks == old(marks) + Opens(seg) && text == old(text) + OpeningText(seg)
    {
      ghost var f, m0 := formatting, marks;
      PushAll(seg);
      OpensPush(m0, f, seg);
      RenderConcat(m0, Opens(seg));
      RenderOpens(seg);
    }

    /**
     * `cancel(k, reopen)`: closes the innermost `k` span, closing first every
     * span opened after it, and then, when `reopen` holds, opens those spans
     * again in their original order. A kind that is not open is left alone.
     */
    method Cancel(k: ControlKind, reopen: bool)
      requires Valid()
      modifies this
      ensures Valid() && Model() == Step(old(Model()), Op.Cancel(k, reopen))
      ensures text == old(text) + CancelText(old(formatting), k, reopen)
    {
      ghost var b := Model();
      CancelEmits(b, k, reopen);
      assert Step(b, Op.Cancel(k, reopen)) == CancelSpan(b, k, reopen);
      if k !in formatting {
        return;
      }
      if reopen {
        CancelAndReopen(k);
      } else {
        CancelAndClose(k);
      }
    }

    /** Closes the innermost `k` span and the spans above it. */
    method CancelAndClose(k: ControlKind)
      requires Valid() && k in formatting
      modifies this
      ensures Valid() && Model() == CancelSpan(old(Model()), k, false)
    {
      var _ := Unwind(k);
      assert marks + [] == marks && formatting + [] == formatting;
    }

    /** Closes the innermost `k` span and the spans above it, and opens those spans again. */
    method CancelAndReopen(k: ControlKind)
      requires Valid() && k in formatting
      modifies this
      ensures Valid() && Model() == CancelSpan(old(Model()), k, true)
    {
      ghost var b := Model();
      ghost var i := LastIndex(b.formatting, k);
      var rewind := Unwind(k);
      Reopen(rewind);
      assert Model() == Builder(b.marks + Closes(b.formatting[i..]) + Opens(b.formatting[i + 1..]),
                                b.formatting[..i] + b.formatting[i + 1..]);
    }

    /** `toString()`: what has been emitted so far, without closing the open spans. */
    method ToString() returns (s: string)
      requires Valid()
      ensures s == text && s == Text(Model())
    {
      s := text;
    }

    /** Pops every open span, innermost first, emitting its closing tag. */
    method PopAll()
      modifies this
      ensures formatting == []
      ensures marks == old(marks) + Closes(old(formatting))
      ensures text == old(text) + ClosingText(old(formatting))
    {
      ghost var f, m0, t0 := formatting, marks, text;
      assert f[|f|..] == [] && f[..|f|] == f;
      var n: nat := |formatting|;
      while n > 0
        invariant Popped(f, m0, t0, n)
      {
        var _ := PopOne(f, m0, t0, n);
        n := n - 1;
      }
      assert f[0..] == f;
    }

    /** `done()`: closes every open span, innermost first, and returns the whole text. */
    method Done() returns (s: string)
      requires Valid()
      modifies this
      ensures Valid() && Model() == Step(old(Model()), Op.Done)
      ensures text == old(text) + ClosingText(old(formatting))
      ensures s == text && formatting == []
      ensures forall j :: !IsActive(j)
    {
      ghost var f, m0 := formatting, marks;
      assert f == [] + f;
      ClosesPop(m0, [], f);
      RenderConcat(m0, Closes(f));
      RenderCloses(f);
      PopAll();
      s := text;
    }
  }

  /** A new builder that is finished at once yields the empty text. */
  method FormatNothing() returns (s: string)
    ensures s == ""
  {
    var b := new FormattedTextBuilder();
    s := b.Done();
  }

  /** Only formatting: an opened bold span is closed by `done`. */
  method OnlyFormatting() returns (s: string)
    ensures s == "<b></b>"
  {
    BoldClosed();
    var b := new FormattedTextBuilder();
    b.Apply(Bold);
    s := b.Done();
  }

  /** Closing a lone bold span emits `</b>`. */
  lemma {:induction false} BoldClosed()
    ensures ClosingText([] + [Bold]) == "</b>"
    ensures "" + "<b>" + "</b>" == "<b></b>"
  {
    assert [] + [Bold] == [Bold] && [Bold][1..] == [];
  }

  /** Repeated `done` calls return the same text. */
  method DoneRepeatedly() returns (s1: string, s2: string, s3: string)
    ensures s1 == s2 == s3 == "Hello world!"
  {
    var b := new FormattedTextBuilder();
    b.Append("Hello world!");
    s1 := b.Done();
    s2 := b.Done();
    s3 := b.Done();
  }

  /** The stack facts `MixedFormatting` relies on when bold is cancelled under italics. */
  lemma {:induction false} MixedStack()
    ensures LastIndex([Bold, Italics], Bold) == 0
    ensures [Bold, Italics][1..] == [Italics] && [Bold, Italics][0..] == [Bold, Italics]
    ensures [Bold, Italics][..0] + [Italics] == [Italics]
    ensures ClosingText([Bold, Italics]) == "</i></b>"
    ensures OpeningText([Italics]) == "<i>" && ClosingText([Italics]) == "</i>"
  {
    assert [Bold, Italics][..1] == [Bold];
    assert [Italics][..0] == [] && [Italics][1..] == [];
  }

  /** Cancelling bold under italics, with reopening, emits `</i></b><i>`. */
  lemma {:induction false} CancelBoldUnderItalics()
    ensures CancelText([Bold, Italics], Bold, true) == "</i></b><i>"
  {
    var f := [Bold, Italics];
    assert f[0] == Bold;
    MixedStack();
    assert CancelText(f, Bold, true) == ClosingText(f[0..]) + OpeningText(f[1..]);
  }

  /** Cancelling bold under italics, with reopening, leaves italics alone open. */
  lemma {:induction false} CancelBoldUnderItalicsStack(b: Builder)
    requires b.formatting == [Bold, Italics]
    ensures CancelSpan(b, Bold, true).formatting == [Italics]
  {
    MixedStack();
  }

  /** The texts of `MixedFormatting`, joined from the pieces the builder emits. */
  lemma {:induction false} MixedTexts()
    ensures "" + "<b>" + "Hello " + "<i>" == "<b>Hello <i>"
    ensures "" + "<b>" + "Hello " + "<i>" + "world" + "</i></b><i>" + "!!!" == "<b>Hello <i>world</i></b><i>!!!"
    ensures "<b>Hello <i>world</i></b><i>!!!" + "</i>" == "<b>Hello <i>world</i></b><i>!!!</i>"
  {
  }

  /** Bold `Hello `, left open. */
  method HelloInBold() returns (b: FormattedTextBuilder)
    ensures fresh(b) && b.Valid() && b.formatting == [Bold]
    ensures b.text == "" + "<b>" + "Hello "
  {
    b := new FormattedTextBuilder();
    b.Apply(Bold);
    b.Append("Hello ");
  }

  /** Bold `Hello `, then italics `world` inside it, both left open. */
  method HelloWorldInBoldItalics() returns (b: FormattedTextBuilder, early: string)
    ensures fresh(b) && b.Valid() && b.formatting == [Bold, Italics]
    ensures early == "" + "<b>" + "Hello " + "<i>"
    ensures b.text == early + "world"
  {
    b := HelloInBold();
    b.Apply(Italics);
    early := b.ToString();
    b.Append("world");
  }

  /** Cancels bold under italics with reopening, then appends `!!!` inside the reopened italics. */
  method CancelBoldThenAppend(b: FormattedTextBuilder)
    requires b.Valid() && b.formatting == [Bold, Italics]
    modifies b
    ensures b.Valid() && b.formatting == [Italics] && b.text == old(b.text) + "</i></b><i>" + "!!!"
  {
    CancelBoldUnderItalics();
    CancelBoldUnderItalicsStack(b.Model());
    b.Cancel(Bold, true);
    b.Append("!!!");
  }

  /**
   * Cancelling bold while italics is open inside it closes italics, closes
   * bold and reopens italics; `toString` shows only what was emitted so far.
   */
  method MixedFormatting() returns (early: string, beforeDone: string, finished: string, afterDone: string)
    ensures early == "<b>Hello <i>"
    ensures beforeDone == "<b>Hello <i>world</i></b><i>!!!"
    ensures finished == "<b>Hello <i>world</i></b><i>!!!</i>"
    ensures afterDone == finished
  {
    MixedTexts();
    MixedStack();
    var b;
    b, early := HelloWorldInBoldItalics();
    CancelBoldThenAppend(b);
    beforeDone := b.ToString();
    finished := b.Done();
    afterDone := b.ToString();
  }

  /** `isActive` is false initially, true after `apply`, and false for every kind after `done`. */
  method ActiveFormatting() returns (before: bool, afterBold: bool, italicsEarly: bool, afterItalics: bool,
                                     boldAtEnd: bool, italicsAtEnd: bool)
    ensures !before && afterBold && !italicsEarly && afterItalics && !boldAtEnd && !italicsAtEnd
  {
    var b := new FormattedTextBuilder();
    before := b.IsActive(Bold);
    b.Apply(Bold);
    afterBold := b.IsActive(Bold);
    b.Append("Hello ");
    italicsEarly := b.IsActive(Italics);
    b.Apply(Italics);
    afterItalics := b.IsActive(Italics);
    var _ := b.Done();
    boldAtEnd := b.IsActive(Bold);
    italicsAtEnd := b.IsActive(Italics);
  }
}

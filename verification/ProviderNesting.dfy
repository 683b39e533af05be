/** The nested context providers of a stress fixture: opening tags are appended, closing tags prepended. */
module ProviderNesting {
  import opened Options

  datatype Line = Open(indent: nat, context: nat) | Consumer | Close(indent: nat, context: nat)

  /** Reads markup with the stack of tags still open; a closing tag must match the innermost one, indent included. */
  function Read(stack: seq<Line>, lines: seq<Line>): Option<seq<Line>>
    decreases |lines|
  {
    if lines == [] then Some(stack)
    else
      match lines[0]
      case Open(_, _) => Read(stack + [lines[0]], lines[1..])
      case Consumer => Read(stack, lines[1..])
      case Close(indent, context) =>
        if stack != [] && stack[|stack| - 1] == Open(indent, context) then Read(stack[..|stack| - 1], lines[1..]) else None
  }

  lemma {:induction false} ReadAppend(stack: seq<Line>, a: seq<Line>, b: seq<Line>)
    requires Read(stack, a).Some?
    ensures Read(stack, a + b) == Read(Read(stack, a).value, b)
    decreases |a|
  {
    if a == [] {
      assert a + b == b;
    } else {
      assert (a + b)[0] == a[0] && (a + b)[1..] == a[1..] + b;
      match a[0]
      case Open(_, _) => ReadAppend(stack + [a[0]], a[1..], b);
      case Consumer => ReadAppend(stack, a[1..], b);
      case Close(_, _) => ReadAppend(stack[..|stack| - 1], a[1..], b);
    }
  }

  /** The tags that are open where the consumer stands. */
  function Providers(n: nat): (tags: seq<Line>)
    ensures |tags| == n && forall i :: 0 <= i < n ==> tags[i] == Open(i + 2, i)
  {
    if n == 0 then [] else Providers(n - 1) + [Open(n + 1, n - 1)]
  }

  method BuildProviders(nesting: nat) returns (opening: seq<Line>, closing: seq<Line>)
    ensures Read([], opening) == Some(Providers(nesting))
    ensures Read(Providers(nesting), closing) == Some([])
    ensures |opening| == |closing| == nesting
    ensures forall k :: 0 <= k < nesting ==> opening[k] == Open(k + 2, k)
    ensures forall k :: 0 <= k < nesting ==> closing[k] == Close(nesting - k + 1, nesting - 1 - k)
  {
    opening, closing := [], [];
    for i := 0 to nesting
      invariant Read([], opening) == Some(Providers(i)) && Read(Providers(i), closing) == Some([])
      invariant |opening| == |closing| == i
      invariant forall k :: 0 <= k < i ==> opening[k] == Open(k + 2, k)
      invariant forall k :: 0 <= k < i ==> closing[k] == Close(i - k + 1, i - 1 - k)
    {
      ReadAppend([], opening, [Open(i + 2, i)]);
      assert Read(Providers(i), [Open(i + 2, i)]) == Some(Providers(i) + [Open(i + 2, i)]);
      opening := opening + [Open(i + 2, i)];
      closing := [Close(i + 2, i)] + closing;
      assert Providers(i + 1)[..i] == Providers(i);
    }
  }

  /** For every depth the fixture is well nested, and the consumer stands inside every provider. */
  method BuildMarkup(nesting: nat) returns (markup: seq<Line>)
    ensures Read([], markup) == Some([])
    ensures |markup| == 2 * nesting + 1 && markup[nesting] == Consumer
    ensures Read([], markup[..nesting]) == Some(Providers(nesting))
    ensures forall k :: 0 <= k < nesting ==> markup[k] == Open(k + 2, k)
    ensures forall k :: nesting < k <= 2 * nesting ==> markup[k] == Close(2 * nesting - k + 2, 2 * nesting - k)
  {
    var opening, closing := BuildProviders(nesting);
    markup := opening + [Consumer] + closing;
    assert markup == opening + ([Consumer] + closing) && ([Consumer] + closing)[1..] == closing;
    ReadAppend([], opening, [Consumer] + closing);
    assert markup[..nesting] == opening;
  }
}

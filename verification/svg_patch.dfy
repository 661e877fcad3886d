/**
  The stats card patch: the card's `tspan` elements, in document order, have
  seven of their texts replaced by `"<Label>: <value>"` lines. Each slot is
  addressed by its position in that list. A missing slot or a slot element
  without a child node is an error, and then no document is produced.
 */
module SvgPatch {
  import opened Results
  import Decimal

  /** A `tspan` element, reduced to the text of its first child node (None: no child node). */
  datatype Tspan = Tspan(firstChild: Option<string>)

  /** The `tspan` elements of the card, in document order. */
  type Document = seq<Tspan>

  /** The values written into the card, each under its own name. */
  datatype Stats = Stats(
    age: string,
    repos: int,
    contributed: int,
    commits: int,
    stars: int,
    followers: int,
    locAdded: int,
    locDeleted: int,
    locTotal: int)

  /** Why a slot could not be written: the list is too short, or the element has no child node. */
  datatype PatchError = IndexOutOfRange(index: nat) | NoFirstChild(index: nat)

  /** Replace the text of the `tspan` at `index` by `text`. */
  datatype Write = Write(index: nat, text: string)

  /** The placeholder positions, in the order they are written. */
  const Slots: seq<nat> := [27, 49, 50, 51, 52, 54, 55]

  /** `"Lines of Code: <total> (<added>++, <deleted>--)"`. */
  function LocLine(st: Stats): string {
    "Lines of Code: " + Decimal.IntToString(st.locTotal)
      + " (" + Decimal.IntToString(st.locAdded) + "++, " + Decimal.IntToString(st.locDeleted) + "--)"
  }

  /** The seven writes of the patch, slot by slot. */
  function Writes(st: Stats): (ws: seq<Write>)
    ensures |ws| == |Slots|
    ensures forall j :: 0 <= j < |ws| ==> ws[j].index == Slots[j]
  {
    [ Write(27, "Uptime: " + st.age),
      Write(49, "Repos: " + Decimal.IntToString(st.repos)),
      Write(50, "Contributed: " + Decimal.IntToString(st.contributed)),
      Write(51, "Commits: " + Decimal.IntToString(st.commits)),
      Write(52, "Stars: " + Decimal.IntToString(st.stars)),
      Write(54, "Followers: " + Decimal.IntToString(st.followers)),
      Write(55, LocLine(st)) ]
  }

  /** The element at `k` exists and has a child node whose text can be replaced. */
  predicate Writable(doc: Document, k: nat) {
    k < |doc| && doc[k].firstChild.Some?
  }

  /** The error raised when position `k` is not writable. */
  function ErrorAt(doc: Document, k: nat): PatchError {
    if k < |doc| then NoFirstChild(k) else IndexOutOfRange(k)
  }

  predicate AllWritable(doc: Document, ws: seq<Write>) {
    forall j :: 0 <= j < |ws| ==> Writable(doc, ws[j].index)
  }

  /** Some write of `ws` goes to position `i`. */
  predicate Targeted(ws: seq<Write>, i: int) {
    exists j :: 0 <= j < |ws| && ws[j].index == i
  }

  /** No later write of `ws` goes to the same position as write `j`. */
  predicate LastWrite(ws: seq<Write>, j: int)
    requires 0 <= j < |ws|
  {
    forall j' :: j < j' < |ws| ==> ws[j'].index != ws[j].index
  }

  /** Write `j` is the first write of `ws` whose position is not writable. */
  predicate FirstFailing(doc: Document, ws: seq<Write>, j: int) {
    && 0 <= j < |ws|
    && !Writable(doc, ws[j].index)
    && forall j' :: 0 <= j' < j ==> Writable(doc, ws[j'].index)
  }

  /** One write: index the list, then replace the first child's text. */
  function SetText(doc: Document, w: Write): Result<Document, PatchError> {
    if w.index >= |doc| then Failure(IndexOutOfRange(w.index))
    else if doc[w.index].firstChild.None? then Failure(NoFirstChild(w.index))
    else Success(doc[w.index := Tspan(Some(w.text))])
  }

  /** The writes in order, stopping at the first one that raises. */
  function ApplyWrites(doc: Document, ws: seq<Write>): (r: Result<Document, PatchError>)
    ensures r.Success? <==> AllWritable(doc, ws)
    ensures r.Success? ==> |r.value| == |doc|
    decreases |ws|
  {
    if ws == [] then Success(doc)
    else
      match SetText(doc, ws[0])
      case Failure(e) => Failure(e)
      case Success(next) => ApplyWrites(next, ws[1..])
  }

  /**
    A successful run of writes keeps every element no write targets, and
    leaves each position holding the text of the last write to it.
   */
  lemma {:induction false} ApplyWritesFrame(doc: Document, ws: seq<Write>)
    ensures ApplyWrites(doc, ws).Success? ==>
      forall i :: 0 <= i < |doc| && !Targeted(ws, i) ==> ApplyWrites(doc, ws).value[i] == doc[i]
    ensures ApplyWrites(doc, ws).Success? ==>
      forall j :: 0 <= j < |ws| && LastWrite(ws, j) ==> ApplyWrites(doc, ws).value[ws[j].index] == Tspan(Some(ws[j].text))
    decreases |ws|
  {
    if ws != [] && ApplyWrites(doc, ws).Success? {
      var w := ws[0];
      var next := doc[w.index := Tspan(Some(w.text))];
      var rest := ws[1..];
      assert ApplyWrites(doc, ws) == ApplyWrites(next, rest);
      ApplyWritesFrame(next, rest);
      var r := ApplyWrites(next, rest).value;
      forall i | 0 <= i < |doc| && !Targeted(ws, i)
        ensures r[i] == doc[i]
      {
        assert !Targeted(rest, i) by {
          forall k | 0 <= k < |rest|
            ensures rest[k].index != i
          {
            assert rest[k] == ws[k + 1];
          }
        }
        assert i != w.index by {
          assert ws[0].index == w.index;
        }
      }
      forall j | 0 <= j < |ws| && LastWrite(ws, j)
        ensures r[ws[j].index] == Tspan(Some(ws[j].text))
      {
        if j == 0 {
          assert !Targeted(rest, w.index) by {
            forall k | 0 <= k < |rest|
              ensures rest[k].index != w.index
            {
              assert rest[k] == ws[k + 1];
            }
          }
        } else {
          assert rest[j - 1] == ws[j];
          assert LastWrite(rest, j - 1) by {
            forall k | j - 1 < k < |rest|
              ensures rest[k].index != rest[j - 1].index
            {
              assert rest[k] == ws[k + 1];
            }
          }
        }
      }
    }
  }

  /** A failing run of writes reports the error of the first write that cannot be done. */
  lemma {:induction false} ApplyWritesFailure(doc: Document, ws: seq<Write>)
    ensures ApplyWrites(doc, ws).Failure? ==>
      exists j :: FirstFailing(doc, ws, j) && ApplyWrites(doc, ws).error == ErrorAt(doc, ws[j].index)
    decreases |ws|
  {
    if ws != [] && ApplyWrites(doc, ws).Failure? {
      var w := ws[0];
      if !Writable(doc, w.index) {
        assert FirstFailing(doc, ws, 0);
      } else {
        var next := doc[w.index := Tspan(Some(w.text))];
        var rest := ws[1..];
        assert ApplyWrites(doc, ws) == ApplyWrites(next, rest);
        assert forall k: nat :: Writable(next, k) <==> Writable(doc, k);
        ApplyWritesFailure(next, rest);
        var j :| FirstFailing(next, rest, j) && ApplyWrites(next, rest).error == ErrorAt(next, rest[j].index);
        assert rest[j] == ws[j + 1];
        assert FirstFailing(doc, ws, j + 1) by {
          forall j' | 0 <= j' < j + 1
            ensures Writable(doc, ws[j'].index)
          {
            if j' > 0 {
              assert ws[j'] == rest[j' - 1];
            }
          }
        }
      }
    }
  }

  /** Every placeholder slot exists and has a child node. */
  predicate HasPlaceholders(doc: Document) {
    forall j :: 0 <= j < |Slots| ==> Writable(doc, Slots[j])
  }

  /**
    The patch of the card with the statistics `st`. It fails exactly when a
    placeholder slot is missing or empty, reporting the first such slot in
    write order, so a list of 55 or fewer elements always fails. On success
    the list keeps its length and every element outside the slots.
   */
  function SvgOverwrite(doc: Document, st: Stats): (r: Result<Document, PatchError>)
    ensures r.Success? <==> HasPlaceholders(doc)
    ensures |doc| <= 55 ==> r.Failure?
    ensures r.Failure? ==>
      exists j :: 0 <= j < |Slots| && !Writable(doc, Slots[j])
        && (forall j' :: 0 <= j' < j ==> Writable(doc, Slots[j']))
        && r.error == ErrorAt(doc, Slots[j])
    ensures r.Success? ==> |r.value| == |doc|
    ensures r.Success? ==> forall i :: 0 <= i < |doc| && i !in Slots ==> r.value[i] == doc[i]
  {
    var ws := Writes(st);
    TargetedIsSlot(ws);
    ApplyWritesFrame(doc, ws);
    ApplyWritesFailure(doc, ws);
    assert |doc| <= 55 ==> !Writable(doc, Slots[6]);
    ApplyWrites(doc, ws)
  }

  /** A list of writes addressed slot by slot targets exactly the slots. */
  lemma TargetedIsSlot(ws: seq<Write>)
    requires |ws| == |Slots|
    requires forall j :: 0 <= j < |ws| ==> ws[j].index == Slots[j]
    ensures forall i :: Targeted(ws, i) <==> i in Slots
  {
    forall i | i in Slots
      ensures Targeted(ws, i)
    {
      var j :| 0 <= j < |Slots| && Slots[j] == i;
      assert ws[j].index == i;
    }
  }

  /** The slot positions strictly increase, so a write list addressed slot by slot never overwrites itself. */
  lemma SlotWritesAreLast(ws: seq<Write>)
    requires |ws| == |Slots|
    requires forall j :: 0 <= j < |ws| ==> ws[j].index == Slots[j]
    ensures forall j :: 0 <= j < |ws| ==> LastWrite(ws, j)
  {
    forall j, j' | 0 <= j < j' < |ws|
      ensures ws[j'].index != ws[j].index
    {
      assert Slots[j] < Slots[j'];
    }
  }

  /** The patch writes the slot positions, in write order, with the given texts. */
  lemma SlotTexts(doc: Document, st: Stats)
    requires HasPlaceholders(doc)
    ensures var ws := Writes(st);
      forall j :: 0 <= j < |ws| ==> SvgOverwrite(doc, st).value[Slots[j]] == Tspan(Some(ws[j].text))
  {
    var ws := Writes(st);
    SlotWritesAreLast(ws);
    TargetedIsSlot(ws);
    ApplyWritesFrame(doc, ws);
  }

  /**
    Each placeholder holds exactly its label, a colon and a space, and the
    value: the uptime string as given, the counts in decimal, and the
    lines-of-code summary with its added and deleted counts.
   */
  lemma PlaceholderTexts(doc: Document, st: Stats)
    requires HasPlaceholders(doc)
    ensures var p := SvgOverwrite(doc, st).value;
      && p[27] == Tspan(Some("Uptime: " + st.age))
      && p[49] == Tspan(Some("Repos: " + Decimal.IntToString(st.repos)))
      && p[50] == Tspan(Some("Contributed: " + Decimal.IntToString(st.contributed)))
      && p[51] == Tspan(Some("Commits: " + Decimal.IntToString(st.commits)))
      && p[52] == Tspan(Some("Stars: " + Decimal.IntToString(st.stars)))
      && p[54] == Tspan(Some("Followers: " + Decimal.IntToString(st.followers)))
      && p[55] == Tspan(Some("Lines of Code: " + Decimal.IntToString(st.locTotal)
                             + " (" + Decimal.IntToString(st.locAdded) + "++, "
                             + Decimal.IntToString(st.locDeleted) + "--)"))
  {
    SlotTexts(doc, st);
    var ws := Writes(st);
    assert Slots[0] == 27 && Slots[1] == 49 && Slots[2] == 50 && Slots[3] == 51;
    assert Slots[4] == 52 && Slots[5] == 54 && Slots[6] == 55;
  }

  /** Position 53 lies between two slots and is left as it was. */
  lemma GapUntouched(doc: Document, st: Stats)
    requires HasPlaceholders(doc)
    ensures SvgOverwrite(doc, st).value[53] == doc[53]
  {
    assert 53 !in Slots;
  }

  /**
    Patching is idempotent: the patched list patched again with the same
    statistics is unchanged, because every slot is overwritten, never appended to.
   */
  lemma PatchIdempotent(doc: Document, st: Stats)
    requires SvgOverwrite(doc, st).Success?
    ensures SvgOverwrite(SvgOverwrite(doc, st).value, st) == SvgOverwrite(doc, st)
  {
    var p := SvgOverwrite(doc, st).value;
    SlotTexts(doc, st);
    assert HasPlaceholders(p) by {
      forall j | 0 <= j < |Slots|
        ensures Writable(p, Slots[j])
      {
        assert p[Slots[j]].firstChild.Some?;
      }
    }
    var q := SvgOverwrite(p, st).value;
    SlotTexts(p, st);
    forall i | 0 <= i < |p|
      ensures q[i] == p[i]
    {
      if i in Slots {
        var j :| 0 <= j < |Slots| && Slots[j] == i;
        assert q[Slots[j]] == p[Slots[j]];
      }
    }
    assert q == p;
  }

  /** The worked example: three followers are shown as "Followers: 3". */
  lemma FollowersExample(doc: Document, st: Stats)
    requires HasPlaceholders(doc) && st.followers == 3
    ensures SvgOverwrite(doc, st).value[54] == Tspan(Some("Followers: 3"))
  {
    SlotTexts(doc, st);
    assert Slots[5] == 54;
    var p := SvgOverwrite(doc, st).value;
    assert p[54] == Tspan(Some(Writes(st)[5].text));
    assert Decimal.IntToString(3) == "3";
    assert Writes(st)[5].text == "Followers: 3";
  }
}

/**
 * The command history of `CommandPanel` (app/gui/command_panel.py): a
 * bounded deque of sent commands without consecutive repeats, a cursor
 * that Up and Down move through it, and the text that was being typed
 * before browsing began.
 */
module CommandPanel {
  import opened Results

  /** The history's state: entries, deque bound, cursor, saved input and the entry field's text. */
  datatype History = History(items: seq<string>, maxLen: nat, idx: int, pending: string, entry: string)

  /** The cursor is -1 (not browsing) or an index of the history, and the deque respects its bound. */
  predicate Valid(h: History) {
    -1 <= h.idx < |h.items| && |h.items| <= h.maxLen
  }

  /** No entry repeats the one just before it. */
  predicate NoRepeats(items: seq<string>) {
    forall k :: 0 < k < |items| ==> items[k - 1] != items[k]
  }

  /** `deque(maxlen=m)` after an append: the oldest entries beyond the bound are dropped. */
  function Bounded(items: seq<string>, m: nat): (r: seq<string>)
    ensures |r| == if |items| > m then m else |items|
    ensures r == items[|items| - |r|..]
  {
    if |items| > m then items[|items| - m..] else items
  }

  /** `if not history or history[-1] != text: history.append(text)`. */
  function Remember(items: seq<string>, m: nat, text: string): (r: seq<string>)
    ensures |items| <= m ==> |r| <= m
    ensures m > 0 ==> r != [] && r[|r| - 1] == text
  {
    if items == [] || items[|items| - 1] != text then Bounded(items + [text], m) else items
  }

  /** The state after `_send_command`, and the text handed to `on_send` (if any). */
  function Send(h: History): (r: (History, Option<string>))
    ensures r.1.Some? <==> h.entry != []
    ensures r.1.Some? ==> r.1.value == h.entry && r.0.entry == [] && r.0.idx == -1
    ensures Valid(h) ==> Valid(r.0)
  {
    if h.entry == [] then (h, None)
    else (History(Remember(h.items, h.maxLen, h.entry), h.maxLen, -1, "", ""), Some(h.entry))
  }

  /** The state after `_history_prev` (the Up key). */
  function Prev(h: History): (r: History)
    requires Valid(h)
    ensures Valid(r) && r.items == h.items && r.maxLen == h.maxLen
    ensures r.idx != -1 ==> r.entry == r.items[r.idx]
  {
    if h.items == [] then h
    else
      var pending := if h.idx == -1 then h.entry else h.pending;
      var idx := if h.idx == -1 then |h.items| - 1 else if h.idx > 0 then h.idx - 1 else h.idx;
      History(h.items, h.maxLen, idx, pending, h.items[idx])
  }

  /** The state after `_history_next` (the Down key). */
  function Next(h: History): (r: History)
    requires Valid(h)
    ensures Valid(r) && r.items == h.items && r.maxLen == h.maxLen
    ensures h.idx != -1 && r.idx == -1 ==> r.entry == h.pending
  {
    if h.idx == -1 then h
    else if h.idx + 1 >= |h.items| then h.(idx := -1, entry := h.pending)
    else h.(idx := h.idx + 1, entry := h.items[h.idx + 1])
  }

  /** Sending empty text changes nothing and sends nothing. */
  lemma SendEmptyIsNoOp(h: History)
    requires h.entry == []
    ensures Send(h) == (h, None)
  {
  }

  /**
   * A send of non-empty text hands that text on, ends browsing and clears
   * the entry and the saved input; the history grows by the text exactly
   * when the text differs from the newest entry, dropping the oldest entry
   * when the bound is reached.
   */
  lemma SendRemembers(h: History)
    requires Valid(h) && h.entry != []
    ensures var (h2, sent) := Send(h);
      sent == Some(h.entry) && Valid(h2) && h2.idx == -1 && h2.pending == [] && h2.entry == [] &&
      (h.items != [] && h.items[|h.items| - 1] == h.entry ==> h2.items == h.items) &&
      (h.items == [] || h.items[|h.items| - 1] != h.entry ==>
         h2.items == (h.items + [h.entry])[|h.items| + 1 - |h2.items|..] &&
         |h2.items| == if |h.items| < h.maxLen then |h.items| + 1 else h.maxLen)
  {
  }

  /** The newest entry of the history is the text just sent (unless the bound is zero). */
  lemma NewestIsLastSent(h: History)
    requires Valid(h) && h.entry != [] && h.maxLen > 0
    ensures var items := Send(h).0.items; items != [] && items[|items| - 1] == h.entry
  {
  }

  /** Sending never puts two equal entries next to each other. */
  lemma {:induction false} SendKeepsNoRepeats(h: History)
    requires NoRepeats(h.items)
    ensures NoRepeats(Send(h).0.items)
  {
    if h.entry != [] && (h.items == [] || h.items[|h.items| - 1] != h.entry) {
      var all := h.items + [h.entry];
      assert NoRepeats(all) by {
        forall k | 0 < k < |all| ensures all[k - 1] != all[k] {
          if k < |h.items| { assert all[k - 1] == h.items[k - 1] && all[k] == h.items[k]; }
        }
      }
      var r := Bounded(all, h.maxLen);
      var d := |all| - |r|;
      forall k | 0 < k < |r| ensures r[k - 1] != r[k] {
        assert r[k - 1] == all[d + k - 1] && r[k] == all[d + k];
      }
    }
  }

  /**
   * Up on an empty history does nothing. From -1 it saves the entry and
   * shows the newest entry; otherwise it steps one entry back, never
   * below the oldest. Whenever it moves, the entry shows the entry under
   * the cursor.
   */
  lemma PrevSteps(h: History)
    requires Valid(h)
    ensures Valid(Prev(h))
    ensures h.items == [] ==> Prev(h) == h
    ensures h.items != [] && h.idx == -1 ==>
              Prev(h).idx == |h.items| - 1 && Prev(h).pending == h.entry
    ensures h.items != [] && h.idx >= 0 ==>
              Prev(h).idx == (if h.idx > 0 then h.idx - 1 else 0) && Prev(h).pending == h.pending
    ensures h.items != [] ==> Prev(h).entry == h.items[Prev(h).idx] && Prev(h).items == h.items
  {
  }

  /**
   * Down when not browsing does nothing; stepping past the newest entry
   * restores the saved input and ends browsing; otherwise it shows the
   * next newer entry.
   */
  lemma NextSteps(h: History)
    requires Valid(h)
    ensures Valid(Next(h))
    ensures h.idx == -1 ==> Next(h) == h
    ensures h.idx == |h.items| - 1 && h.idx >= 0 ==> Next(h).idx == -1 && Next(h).entry == h.pending
    ensures 0 <= h.idx < |h.items| - 1 ==> Next(h).idx == h.idx + 1 && Next(h).entry == h.items[h.idx + 1]
    ensures Next(h).items == h.items && Next(h).pending == h.pending
  {
  }

  /** Up then Down from the entry field gives back what was being typed, and ends browsing. */
  lemma PrevThenNextRestoresInput(h: History)
    requires Valid(h) && h.idx == -1 && h.items != []
    ensures Next(Prev(h)).idx == -1 && Next(Prev(h)).entry == h.entry
  {
    PrevSteps(h);
  }

  class CommandPanel {
    /** `_history`, with its bound `maxlen`. */
    var items: seq<string>
    var maxLen: nat
    /** `_history_idx`. */
    var idx: int
    /** `_pending_input`. */
    var pending: string
    /** The text of the entry field (`_entry_var`). */
    var entry: string

    function Snap(): History
      reads this
    {
      History(items, maxLen, idx, pending, entry)
    }

    /** A fresh panel: empty history bounded by the `history_size` setting. */
    constructor (historySize: nat)
      ensures Snap() == History([], historySize, -1, "", "") && Valid(Snap())
    {
      items := [];
      maxLen := historySize;
      idx := -1;
      pending := "";
      entry := "";
    }

    /** The user edits the entry field. */
    method Type(text: string)
      modifies this`entry
      ensures Snap() == old(Snap()).(entry := text)
    {
      entry := text;
    }

    /** `_send_command` (Return or the Send button): returns the text handed to `on_send`. */
    method SendCommand() returns (sent: Option<string>)
      modifies this
      ensures (Snap(), sent) == Send(old(Snap()))
    {
      var text := entry;
      if text == [] {
        return None;
      }
      if items == [] || items[|items| - 1] != text {
        items := items + [text];
        if |items| > maxLen {
          items := items[|items| - maxLen..];
        }
      }
      idx := -1;
      pending := "";
      entry := "";
      sent := Some(text);
    }

    /** `_history_prev` (the Up key). */
    method HistoryPrev()
      requires Valid(Snap())
      modifies this`idx, this`pending, this`entry
      ensures Snap() == Prev(old(Snap()))
    {
      if items == [] {
        return;
      }
      if idx == -1 {
        pending := entry;
        idx := |items| - 1;
      } else if idx > 0 {
        idx := idx - 1;
      }
      entry := items[idx];
    }

    /** `_history_next` (the Down key). */
    method HistoryNext()
      requires Valid(Snap())
      modifies this`idx, this`entry
      ensures Snap() == Next(old(Snap()))
    {
      if idx == -1 {
        return;
      }
      idx := idx + 1;
      if idx >= |items| {
        idx := -1;
        entry := pending;
      } else {
        entry := items[idx];
      }
    }
  }
}

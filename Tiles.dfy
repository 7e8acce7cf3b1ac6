/**
 * The highlight states of the array tiles (NumberTile) and table cells
 * (TableCell), the one rule by which set_state merges a requested state into
 * the current one, and ArrayCanvas.highlight_section, which applies that rule
 * to a run of tiles.
 */
module Tiles {
  import opened Options

  datatype Highlight = Inactive | Active | Left | Right | Middle | Border

  /** A tile already marked Left that is asked to become Right becomes Middle; otherwise the request wins. */
  function Merged(current: Highlight, requested: Highlight): (next: Highlight)
    ensures next == Middle <==> (current == Left && requested == Right) || requested == Middle
    ensures next != Middle ==> next == requested
  {
    if current == Left && requested == Right then Middle else requested
  }

  /** The number a table cell shows: "" while hidden, otherwise what get_cell_value gave (None past the array). */
  datatype Shown = Blank | Revealed(value: Option<int>)

  class NumberTile {
    var number: int
    var state: Highlight

    constructor (number: int)
      ensures this.number == number && state == Inactive
    {
      this.number := number;
      state := Inactive;
    }

    method SetState(stateToSet: Highlight)
      modifies this
      ensures state == Merged(old(state), stateToSet) && number == old(number)
    {
      if stateToSet == Right && state == Left {
        state := Middle;
      } else {
        state := stateToSet;
      }
    }
  }

  class TableCell {
    var number: Shown
    var state: Highlight

    constructor (number: Shown)
      ensures this.number == number && state == Inactive
    {
      this.number := number;
      state := Inactive;
    }

    method SetState(stateToSet: Highlight)
      modifies this
      ensures state == Merged(old(state), stateToSet) && number == old(number)
    {
      if state == Left && stateToSet == Right {
        state := Middle;
      } else {
        state := stateToSet;
      }
    }
  }

  /** The states of a row of tiles after highlight_section(start, length, mode). */
  function Highlighted(states: seq<Highlight>, start: nat, length: nat, mode: Highlight): (r: seq<Highlight>)
    ensures |r| == |states|
    ensures forall i :: 0 <= i < |states| && !(start <= i < start + length) ==> r[i] == states[i]
    ensures forall i :: 0 <= i < |states| && start <= i < start + length ==> r[i] == Merged(states[i], mode)
  {
    seq(|states|, i requires 0 <= i < |states| =>
      if start <= i < start + length then Merged(states[i], mode) else states[i])
  }

  /**
   * highlight_section: set the state of each of the `length` tiles from
   * `start` on, skipping positions past the last tile.
   */
  method HighlightSection(states: array<Highlight>, start: nat, length: nat, mode: Highlight)
    modifies states
    ensures states[..] == Highlighted(old(states[..]), start, length, mode)
  {
    for i := 0 to length
      invariant states[..] == Highlighted(old(states[..]), start, i, mode)
    {
      if start + i < states.Length {
        states[start + i] := Merged(states[start + i], mode);
      }
    }
  }

  /** unhighlite_all_tiles: every tile inactive. */
  lemma UnhighlightAll(states: seq<Highlight>)
    ensures Highlighted(states, 0, |states|, Inactive) == seq(|states|, _ => Inactive)
  {
  }

  /**
   * What a step or an answer leaves on the array: after all tiles are made
   * inactive, the left window marked Left and then the right window Right,
   * a tile is Middle exactly where the windows overlap, Left or Right where
   * only one covers it, and inactive elsewhere.
   */
  lemma {:induction false} TwoWindows(states: seq<Highlight>, leftStart: nat, rightStart: nat, width: nat, i: nat)
    requires i < |states|
    ensures var cleared := Highlighted(states, 0, |states|, Inactive);
      var r := Highlighted(Highlighted(cleared, leftStart, width, Left), rightStart, width, Right);
      var inLeft, inRight := leftStart <= i < leftStart + width, rightStart <= i < rightStart + width;
      && (r[i] == Middle <==> inLeft && inRight)
      && (r[i] == Left <==> inLeft && !inRight)
      && (r[i] == Right <==> !inLeft && inRight)
      && (r[i] == Inactive <==> !inLeft && !inRight)
  {
  }
}

/** Seat rectangles of the seat-map canvas and the availability test applied to them. */
module Seats {

  datatype Option<T> = None | Some(value: T)

  /** One `rect` of the seat-map canvas, with its attributes already read.
      `id` is the element handle (it indexes the page's style table), `x` and
      `width` are the parsed `x` and `width` attributes, `y` is the row key and
      `fill` is the `fill` attribute ("" when the attribute is missing). */
  datatype Seat = Seat(id: nat, x: real, y: real, width: real, fill: string)

  /** The fill colour the seat map uses for seats that are already taken. */
  const UnavailableSeatColor: string := "#DDDDDD"

  /** ASCII lower-casing, which is all `toLowerCase` can do to a string that
      could then equal the lower-case sentinel "#dddddd". */
  function LowerChar(c: char): char {
    if 'A' <= c <= 'Z' then (c as int + 32) as char else c
  }

  function Lower(s: string): string {
    seq(|s|, i requires 0 <= i < |s| => LowerChar(s[i]))
  }

  /** A seat is offered only if its fill is present and non-empty, is not the
      unavailable colour in any letter case, and is not exactly "none". */
  predicate IsAvailable(fill: string) {
    fill != "" && Lower(fill) != Lower(UnavailableSeatColor) && fill != "none"
  }

  /** The fills the filter rejects, written out without `Lower`: the empty
      fill, the exact word "none", and "#dddddd" in any mix of letter case. */
  lemma UnavailableFills(fill: string)
    ensures !IsAvailable(fill) <==>
      || fill == ""
      || fill == "none"
      || (|fill| == 7 && fill[0] == '#' && forall i :: 1 <= i < 7 ==> fill[i] == 'd' || fill[i] == 'D')
  {
    var sentinel := Lower(UnavailableSeatColor);
    assert sentinel == "#dddddd";
    if Lower(fill) == sentinel {
      assert |fill| == 7;
      forall i | 0 <= i < 7 ensures LowerChar(fill[i]) == sentinel[i] {
        assert Lower(fill)[i] == LowerChar(fill[i]);
      }
    }
    if |fill| == 7 && fill[0] == '#' && forall i :: 1 <= i < 7 ==> fill[i] == 'd' || fill[i] == 'D' {
      assert Lower(fill) == sentinel;
    }
  }

  /** The element handles of a block, in block order. */
  function Ids(block: seq<Seat>): seq<nat> {
    seq(|block|, k requires 0 <= k < |block| => block[k].id)
  }

  /** No element appears twice. */
  predicate DistinctIds(s: seq<Seat>) {
    forall i, j :: 0 <= i < j < |s| ==> s[i].id != s[j].id
  }

  /** A window of a list of distinct elements holds distinct elements, each
      one taken from the list. */
  lemma SliceFits(s: seq<Seat>, i: nat, j: nat)
    requires DistinctIds(s) && i <= j <= |s|
    ensures DistinctIds(s[i..j])
    ensures forall x :: x in s[i..j] ==> x in s
  {
    var w := s[i..j];
    forall a, b | 0 <= a < b < |w| ensures w[a].id != w[b].id {
      assert w[a] == s[i + a] && w[b] == s[i + b];
    }
  }
}

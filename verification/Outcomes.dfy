/** How decompressing stands, and what it has come to. */
module Outcomes {
  import opened Lz77
  import opened BlockCodec

  datatype Status = Fine | Done | Failed | NeedsMoreInput | HasMoreOutput | Overrun | BadParam

  // How things stand within a block.
  predicate Midway(status: Status) {
    status != Done && status != BadParam
  }

  // The output holds what the input means from here on, or as much of it as there is room for.
  ghost predicate Reached(goal: Read<seq<byte>>, room: nat, status: Status, out: seq<byte>, rest: seq<bool>) {
    goal.Got? ==>
      if |goal.value| <= room then status == Fine && goal == Got(out, rest)
      else status == HasMoreOutput && out == goal.value[..room]
  }
}

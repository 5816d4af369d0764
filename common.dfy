/** Small shared vocabulary of the duel server: identifiers, the room
    lifecycle status used both by the live game state and by the rooms
    table, an Option type, and real-valued min/max (Math.min / Math.max). */
module Common {

  /** Member ids (the JWT `id`, the `member_id` column) and room ids
      (the `rooms.id` column) are auto-increment integers. */
  type UserId = nat
  type RoomId = nat

  datatype Option<+T> = None | Some(value: T)

  /** 'waiting' | 'playing' | 'finished' */
  datatype Status = Waiting | Playing | Finished

  function Min(a: real, b: real): real { if a <= b then a else b }

  function Max(a: real, b: real): real { if a >= b then a else b }
}

/** The sending loop of ExtLibs/TSocket/tsocket.c:647-712 against a socket that does as it likes. */
module Transfer {
  import opened Machine

  /** One turn: what select says and, when the socket is writable, how much send is willing to take. */
  datatype Turn = SelectError | Timeout | ErrorSet | NotWritable | Writable(room: int)

  /** send takes what it likes, but not more than it is given. */
  function Taken(room: int, given: nat): int {
    if room > given then given else room
  }

  // ----- what the turns come to

  /** The bytes handed over in the first k turns. */
  ghost function Sent(len: nat, turns: nat -> Turn, k: nat): (n: nat)
    ensures n <= len
  {
    if k == 0 then 0
    else
      var n := Sent(len, turns, k - 1);
      match turns(k - 1)
      case Writable(room) => if room > 0 then n + (if room < len - n then room else len - n) else n
      case _ => n
  }

  ghost function Timeouts(turns: nat -> Turn, k: nat): nat {
    if k == 0 then 0 else Timeouts(turns, k - 1) + if turns(k - 1).Timeout? then 1 else 0
  }

  /** Turn k leaves something to send and does not end the loop: the first time-out, or some bytes but not the last. */
  ghost predicate GoesOn(len: nat, turns: nat -> Turn, k: nat) {
    match turns(k)
    case Timeout => Timeouts(turns, k) == 0
    case Writable(room) => 0 < room < len - Sent(len, turns, k)
    case _ => false
  }

  /**
   The loop makes turns as long as they go on. The bytes handed over are a prefix of the message in order and without
   repeats, as many as the turns took; the length is returned exactly when the last turn takes all that is left of a
   non-empty message, and -1 otherwise.
   */
  method NetTcpSendMsg(msg: seq<Byte>, turns: nat -> Turn) returns (ret: int, wire: seq<Byte>, ghost used: nat)
    ensures |wire| <= |msg| && wire == msg[..|wire|]
    ensures ret == |msg| || ret == -1
    ensures ret == |msg| <==> wire == msg && msg != []
    ensures used > 0 && (forall k :: 0 <= k < used - 1 ==> GoesOn(|msg|, turns, k)) && !GoesOn(|msg|, turns, used - 1)
    ensures |wire| == Sent(|msg|, turns, used)
  {
    var total, cont, turn := 0, 0, 0;
    wire, used := [], 0;
    while true
      invariant total <= |msg| && cont < 2 && wire == msg[..total] && (total == |msg| ==> msg == [])
      invariant used == turn && total == Sent(|msg|, turns, turn) && cont == Timeouts(turns, turn)
      invariant forall k :: 0 <= k < turn ==> GoesOn(|msg|, turns, k)
      decreases |msg| - total, 2 - cont
    {
      var t := turns(turn);
      turn := turn + 1;
      used := turn;
      match t {
        case ErrorSet => return -1, wire, used;
        case NotWritable => return -1, wire, used;
        case Writable(room) =>
          var given := msg[total..];
          var lenSend := Taken(room, |given|);
          if lenSend <= 0 { return -1, wire, used; }
          wire := wire + given[..lenSend];
          assert wire == msg[..total + lenSend];
          total := total + lenSend;
          if total == |msg| {
            assert wire == msg;
            return |msg|, wire, used;
          }
        case Timeout =>
          cont := cont + 1;
          if cont == 2 { return -1, wire, used; }
        case SelectError => return -1, wire, used;
      }
    }
  }
}

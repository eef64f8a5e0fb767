/** The two message types the cleaner publishes, and the publishing end of
    the "/turtle1/cmd_vel" topic reduced to the log of what was sent. */
module GeometryMsgs {

  /** A 3-vector of the geometry_msgs package; every field defaults to zero. */
  datatype Vector3 = Vector3(x: real, y: real, z: real)

  /** A velocity command: linear and angular velocity. */
  datatype Twist = Twist(linear: Vector3, angular: Vector3)

  const ZeroVector3: Vector3 := Vector3(0.0, 0.0, 0.0)

  /** The value of `Twist::default()`: every field zero. */
  const DefaultTwist: Twist := Twist(ZeroVector3, ZeroVector3)

  /** A publisher of Twist commands. The transport is fire-and-forget, so all
      that is observable of it here is the sequence of messages handed to
      `send`, in order. */
  class Publisher {
    var sent: seq<Twist>

    constructor ()
      ensures sent == []
    {
      sent := [];
    }

    /** Hands one message to the transport. */
    method Send(msg: Twist)
      modifies this
      ensures sent == old(sent) + [msg]
    {
      sent := sent + [msg];
    }
  }
}

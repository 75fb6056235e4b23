/**
 * `TimeoutSettings` (src/protocols/types.rs): optional read and write
 * timeouts for the socket. `None` blocks indefinitely; a zero duration is
 * refused, because the socket layer would take it as an error.
 */
module Types {
  import opened Base
  import opened Errors
  import opened Bufferer

  /** Sub-second part of a duration, always below one second. */
  type Nanos = n: int | 0 <= n < 1_000_000_000

  /** `std::time::Duration`, kept normalised as seconds and nanoseconds. */
  datatype Duration = Duration(secs: u64, nanos: Nanos) {
    predicate IsZero() {
      secs == 0 && nanos == 0
    }
  }

  /** `Duration::from_secs`. */
  function FromSecs(secs: u64): Duration {
    Duration(secs, 0)
  }

  /** A timeout that is there and zero. */
  predicate ZeroTimeout(d: Option<Duration>) {
    d.Some? && d.value.IsZero()
  }

  const ZERO_DURATION: GDError := InvalidInput("Can't pass duration 0 to timeout settings.")

  datatype TimeoutSettings = TimeoutSettings(read: Option<Duration>, write: Option<Duration>) {
    function GetRead(): Option<Duration> {
      read
    }

    function GetWrite(): Option<Duration> {
      write
    }

    /** No timeout the settings hold is zero. */
    predicate Valid() {
      !ZeroTimeout(read) && !ZeroTimeout(write)
    }
  }

  /**
   * `TimeoutSettings::new`: refuses a zero read timeout, then a zero write
   * timeout, and otherwise keeps both exactly as given.
   */
  function New(read: Option<Duration>, write: Option<Duration>): (r: GDResult<TimeoutSettings>)
    ensures r.Ok? <==> !ZeroTimeout(read) && !ZeroTimeout(write)
    ensures r.Err? ==> r.error == ZERO_DURATION
    ensures r.Ok? ==> r.value.Valid() && r.value.GetRead() == read && r.value.GetWrite() == write
  {
    if read.Some? && read.value == Duration(0, 0) then Err(ZERO_DURATION)
    else if write.Some? && write.value == Duration(0, 0) then Err(ZERO_DURATION)
    else Ok(TimeoutSettings(read, write))
  }

  /** `Default::default`: four seconds each way. */
  function Default(): (t: TimeoutSettings)
    ensures t.Valid()
  {
    TimeoutSettings(Some(FromSecs(4)), Some(FromSecs(4)))
  }

  /** A zero read timeout is refused whatever the write timeout. */
  lemma ZeroReadRefused(write: Option<Duration>)
    ensures New(Some(Duration(0, 0)), write) == Err(ZERO_DURATION)
  {
  }

  /** A zero write timeout is refused even beside a valid read timeout. */
  lemma ZeroWriteRefused(read: Option<Duration>)
    ensures New(read, Some(Duration(0, 0))) == Err(ZERO_DURATION)
  {
  }

  /** Absent timeouts are always accepted and read back as absent. */
  lemma NoTimeoutsAccepted()
    ensures New(None, None) == Ok(TimeoutSettings(None, None))
    ensures New(None, None).value.GetRead() == None && New(None, None).value.GetWrite() == None
  {
  }

  /** The default holds four seconds both ways and is itself what `new` accepts and returns. */
  lemma DefaultPassesNew()
    ensures Default().GetRead() == Some(FromSecs(4)) && Default().GetWrite() == Some(FromSecs(4))
    ensures New(Default().GetRead(), Default().GetWrite()) == Ok(Default())
  {
  }
}

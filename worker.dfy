/** One iteration of `_serial_worker` in app.py while a serial port is open: the query has
    been written and up to 19 bytes read back. A full response that parses becomes a
    timestamped sample appended to the history. A short read skips the iteration and
    keeps the port. A full response that `_parse_frame` rejects raises; the handler
    appends nothing and, when falling back to simulation is enabled, closes the port, so
    every later iteration appends simulated samples instead. */
module Worker {
  import opened Modbus
  import opened SampleHistory

  /** A decoded reading with the UTC timestamp the worker adds to it. */
  datatype Sample = Sample(reading: Reading, timestamp: string)

  /** One poll: `response` is what `ser.read(19)` returned, `timestamp` the clock's reading
      and `fallbackToSim` the setting SIMULATE_ON_ERROR. `stillSerial` says whether the
      port is still open afterwards; when it is false the worker has switched to
      simulation for the rest of the run. */
  method PollStep(history: History<Sample>, response: seq<Byte>, timestamp: string, fallbackToSim: bool)
    returns (appended: bool, stillSerial: bool)
    requires history.Valid()
    modifies history
    ensures history.Valid()
    ensures appended <==> Parse(response).Ok?
    ensures stillSerial <==> |response| != ResponseLength || Parse(response).Ok? || !fallbackToSim
    ensures appended ==>
      history.appended == old(history.appended) + [Sample(Parse(response).value, timestamp)] &&
      history.entries == Latest(old(history.entries) + [Sample(Parse(response).value, timestamp)], history.capacity) &&
      history.lastSeq == old(history.lastSeq) + 1
    ensures !appended ==>
      history.appended == old(history.appended) &&
      history.entries == old(history.entries) &&
      history.lastSeq == old(history.lastSeq)
  {
    if |response| != ResponseLength {
      return false, true;
    }
    var parsed := ParseFrame(response);
    if parsed.Err? {
      // The ValueError reaches the handler, which closes the port when falling back.
      return false, !fallbackToSim;
    }
    history.Append(Sample(parsed.value, timestamp));
    appended, stillSerial := true, true;
  }
}

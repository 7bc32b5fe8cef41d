/** Non-volatile storage of the value under one key. */
module Storage {
  import opened Options
  import opened Status

  /** Which accesses succeed. */
  datatype Health = Health(readable: bool, writable: bool, erasable: bool)

  /** Accesses that fail change nothing. */
  class Cell<T> {
    var stored: Option<T>
    var health: Health

    constructor (stored: Option<T>, health: Health)
      ensures this.stored == stored && this.health == health
    {
      this.stored, this.health := stored, health;
    }

    method Read(initial: T) returns (status: StatusCode, value: T)
      ensures status == if !health.readable then Error else if stored.None? then NoData else OK
      ensures value == if status == OK then stored.value else initial
    {
      if !health.readable {
        return Error, initial;
      }
      if stored.None? {
        return NoData, initial;
      }
      return OK, stored.value;
    }

    method Write(value: T) returns (status: StatusCode)
      modifies `stored
      ensures status == if health.writable then OK else Error
      ensures stored == if health.writable then Some(value) else old(stored)
    {
      if !health.writable {
        return Error;
      }
      stored := Some(value);
      return OK;
    }

    method Erase() returns (status: StatusCode)
      modifies `stored
      ensures status == if !health.erasable then Error else if old(stored).None? then NoData else OK
      ensures stored == if status == OK then None else old(stored)
    {
      if !health.erasable {
        return Error;
      }
      if stored.None? {
        return NoData;
      }
      stored := None;
      return OK;
    }
  }
}

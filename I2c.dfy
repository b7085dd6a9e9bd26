/** The I2C transport the driver talks to, as an abstract register file.
    Every transaction is appended to a log, so that what the driver asks of the
    bus can be stated; a transaction fails with an IOException exactly when its
    position in the log is in `failing`, which lets every fault scenario be
    expressed without randomness. */
module I2c {

  /** The outcome of a bus transaction: a value or an IOException. */
  datatype Result<T> = Ok(value: T) | IOError

  datatype Transaction =
    | ReadByte(address: nat)
    | WriteByte(address: nat, value: bv8)
    | ReadBurst(address: nat, length: nat)

  function Min(a: nat, b: nat): nat
  {
    if a < b then a else b
  }

  class Device {
    /** The 256 byte registers of the device. */
    var registers: seq<bv8>
    /** The bytes that burst reads of the output registers deliver, oldest first. */
    var fifoStream: seq<bv8>
    /** Every transaction attempted so far. */
    var log: seq<Transaction>
    /** Positions in the log at which the transaction raises an IOException. */
    var failing: set<nat>

    ghost predicate Valid()
      reads this
    {
      |registers| == 256
    }

    /** Whether the next transaction fails. */
    predicate NextFails()
      reads this
    {
      |log| in failing
    }

    constructor (initial: seq<bv8>, stream: seq<bv8>, faults: set<nat>)
      requires |initial| == 256
      ensures Valid()
      ensures registers == initial && fifoStream == stream && log == [] && failing == faults
    {
      registers, fifoStream, log, failing := initial, stream, [], faults;
    }

    /** `read(address)`: one register byte. */
    method Read(address: nat) returns (r: Result<bv8>)
      requires Valid() && address < 256
      modifies this`log
      ensures log == old(log) + [ReadByte(address)]
      ensures r == if old(NextFails()) then IOError else Ok(registers[address])
    {
      r := if NextFails() then IOError else Ok(registers[address]);
      log := log + [ReadByte(address)];
    }

    /** `write(address, b)`: one register byte. */
    method Write(address: nat, value: bv8) returns (r: Result<()>)
      requires Valid() && address < 256
      modifies this`log, this`registers
      ensures Valid()
      ensures log == old(log) + [WriteByte(address, value)]
      ensures r == if old(NextFails()) then IOError else Ok(())
      ensures registers == if old(NextFails()) then old(registers) else old(registers)[address := value]
    {
      if NextFails() {
        r := IOError;
      } else {
        r := Ok(());
        registers := registers[address := value];
      }
      log := log + [WriteByte(address, value)];
    }

    /** A burst read of `length` bytes starting at `address`: the device
        auto-increments through its output registers and may deliver fewer bytes
        than requested when fewer are available. */
    method Burst(address: nat, length: nat) returns (r: Result<seq<bv8>>)
      modifies this`log, this`fifoStream
      ensures log == old(log) + [ReadBurst(address, length)]
      ensures old(NextFails()) ==> r == IOError && fifoStream == old(fifoStream)
      ensures !old(NextFails()) ==>
                var n := Min(length, |old(fifoStream)|);
                r == Ok(old(fifoStream)[..n]) && fifoStream == old(fifoStream)[n..]
    {
      if NextFails() {
        r := IOError;
      } else {
        var n := Min(length, |fifoStream|);
        r := Ok(fifoStream[..n]);
        fifoStream := fifoStream[n..];
      }
      log := log + [ReadBurst(address, length)];
    }
  }
}

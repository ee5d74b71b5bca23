/** A client of the engine: what a sketch can conclude from the contracts alone. */
module Scenarios {
  import opened JavaBytes
  import opened SerialSim

  /** One batch "AB\nC" arrives and is drained into the consumer buffer. */
  method LineFraming()
  {
    var port := new SerialSimulator(false, false);
    port.ReceiveNewIncomingData([0x41, 0x42, 0x0A, 0x43]);
    var fired := port.SerialEvent([false, false, false, false]);
    assert fired == [];
    assert port.Available() == 4;
    assert port.invokeSerialAvailable;
    ReadLine(port);
  }

  /** From "AB\nC": a two-byte destination is too small for the record; reading
      up to the newline yields "AB\n" and leaves "C"; a second attempt finds no
      newline and changes nothing. */
  method ReadLine(port: SerialSimulator)
    requires port.buf == [0x41, 0x42, 0x0A, 0x43]
    modifies port
  {
    var small := new JByte[2];
    var n := port.ReadBytesUntilInto(0x0A, small);
    assert IndexOf([0x41, 0x42, 0x0A, 0x43], 0x0A) == 2;
    assert n == -1 && port.buf == [0x41, 0x42, 0x0A, 0x43];

    var line := port.ReadBytesUntil(0x0A);
    assert line != null && line[..] == [0x41, 0x42, 0x0A];
    assert port.buf == [0x43];

    var again := port.ReadBytesUntil(0x0A);
    assert again == null && port.buf == [0x43];

    var b := port.Read();
    assert b == 0x43 && port.Available() == 0;
    b := port.Read();
    assert b == -1;
  }

  /** A negative byte comes back from `read` as its unsigned value, and the
      delimiter 255 passed to `readBytesUntil` matches the byte -1. */
  method SignedBytes()
  {
    var port := new SerialSimulator(false, false);
    port.ReceiveNewIncomingData([-1, 7]);
    var _ := port.SerialEvent([false, false]);
    var record := port.ReadBytesUntil(255);
    assert ToByte(255) == -1;
    assert record != null && record[..] == [-1];
    var last := port.Last();
    assert last == 7 && port.Available() == 0;
    port.Clear();
    port.Clear();
    assert port.Available() == 0;
  }
}

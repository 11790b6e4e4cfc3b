/** An open table file: its bytes and the one position that reads and writes share. */
module TableFiles {
  import opened Frames

  lemma MagicFirst() ensures Header()[0..8] == U64(DB_MAGIC) {
    hide U64;
  }

  class TableFile {
    var bytes: string
    var pos: nat

    /** createTableFile: a new file that holds the header only. */
    constructor ()
      ensures bytes == Header() && pos == 0
    {
      bytes := U64(DB_MAGIC) + U64(DB_VERSION) + U64(DB_FLAGS) + U64(DB_RESERVED);
      pos := 0;
    }

    /** read: all n bytes, or failure. */
    method Read(n: nat) returns (ok: bool, data: string)
      modifies `pos
      ensures ok <==> old(pos) + n <= |bytes|
      ensures ok ==> data == bytes[old(pos)..old(pos) + n] && pos == old(pos) + n
      ensures !ok ==> data == [] && pos == old(pos)
    {
      ok := pos + n <= |bytes|;
      if ok {
        data := bytes[pos..pos + n];
        pos := pos + n;
      } else {
        data := [];
      }
    }

    /** read into a std::uint64_t. */
    method ReadU64() returns (ok: bool, v: nat)
      modifies `pos
      ensures ok <==> old(pos) + 8 <= |bytes|
      ensures ok ==> v == FromLittleEndian(bytes[old(pos)..old(pos) + 8]) && pos == old(pos) + 8
      ensures !ok ==> pos == old(pos)
    {
      var data;
      ok, data := Read(8);
      v := FromLittleEndian(data);
    }

    /** seekg / seekp from the beginning. */
    method SeekTo(p: nat)
      modifies `pos
      ensures pos == p
    {
      pos := p;
    }

    /** seekg from the current position. */
    method SeekBy(d: nat)
      modifies `pos
      ensures pos == old(pos) + d
    {
      pos := pos + d;
    }

    /** write of one byte at the current position, inside the file. */
    method PutByte(c: char)
      requires pos < |bytes|
      modifies this
      ensures bytes == old(bytes)[old(pos) := c] && pos == old(pos) + 1
    {
      bytes := bytes[..pos] + [c] + bytes[pos + 1..];
      pos := pos + 1;
    }

    /** write on a stream opened for appending. */
    method Append(s: string)
      modifies `bytes
      ensures bytes == old(bytes) + s
    {
      bytes := bytes + s;
    }

    /** Opens the file anew and reads its header (checkFileValidity): false is the fatal wrong-magic error. */
    method Open() returns (valid: bool)
      modifies `pos
      ensures valid <==> |bytes| >= 8 && FromLittleEndian(bytes[0..8]) == DB_MAGIC
      ensures valid ==> pos == 32
      ensures Header() <= bytes ==> valid
    {
      hide Header, U64, FromLittleEndian;
      pos := 0;
      var ok, magic := ReadU64();
      valid := ok && magic == DB_MAGIC;
      SeekBy(24);
      assert Header() <= bytes ==> valid by {
        if Header() <= bytes {
          MagicFirst();
          assert bytes[0..8] == Header()[0..8];
          U64RoundTrip(DB_MAGIC);
        }
      }
    }
  }
}

/** The part of stdio the converter's output side uses (fopen, fwrite, fseek/ftell, rewind),
    as a store of byte files. Output files are keyed by registry position. Whether a call
    succeeds is not known in advance: each call may fail, and a failed write may have stored
    a prefix of its data, as a short fwrite does. */
module Files {
  import opened Common

  /** The fopen modes of flushSampleBuffers: "w", "a" and "r+". */
  datatype Mode = Truncate | Append | Update

  /** The file after writing `data` at offset 0 over `file`. */
  function Overwrite(file: seq<byte>, data: seq<byte>): (r: seq<byte>)
    ensures |r| == if |data| <= |file| then |file| else |data|
    ensures r[..|data|] == data && r[|data|..] == if |data| <= |file| then file[|data|..] else []
  {
    if |data| <= |file| then data + file[|data|..] else data
  }

  /** Files other than those at positions below `from` are as they were. */
  ghost predicate UntouchedFrom(before: map<nat, seq<byte>>, after: map<nat, seq<byte>>, from: nat)
  {
    forall k :: k >= from ==> (k in after <==> k in before) && (k in after ==> after[k] == before[k])
  }

  class FileStore {
    var files: map<nat, seq<byte>>

    constructor(initial: map<nat, seq<byte>>)
      ensures files == initial
    {
      files := initial;
    }

    /** fopen(name, mode): "w" creates or empties the file, "a" creates a missing file and
        keeps an existing one, "r+" needs an existing file. */
    method Open(k: nat, mode: Mode) returns (ok: bool)
      modifies this
      ensures mode == Truncate ==> files == if ok then old(files)[k := []] else old(files)
      ensures mode == Append ==>
        files == if ok && k !in old(files) then old(files)[k := []] else old(files)
      ensures mode == Update ==> files == old(files) && (ok ==> k in files)
      ensures ok ==> k in files
    {
      ok :| true;
      if mode == Update && k !in files {
        ok := false;
      }
      if ok {
        if mode == Truncate {
          files := files[k := []];
        } else if mode == Append && k !in files {
          files := files[k := []];
        }
      }
    }

    /** fwrite at the end of an open file: `written` of the bytes were stored. */
    method Write(k: nat, data: seq<byte>) returns (written: nat)
      requires k in files
      modifies this
      ensures written <= |data|
      ensures files == old(files)[k := old(files)[k] + data[..written]]
    {
      written :| written <= |data|;
      files := files[k := files[k] + data[..written]];
    }

    /** fseek(fp, 0, SEEK_END) followed by ftell: the file size, unless the seek fails. */
    method SeekEnd(k: nat) returns (ok: bool, size: nat)
      requires k in files
      ensures size == |files[k]|
    {
      ok :| true;
      size := |files[k]|;
    }

    /** rewind followed by fwrite: the first `written` bytes of `data` overwrite the start
        of the file. */
    method WriteAtStart(k: nat, data: seq<byte>) returns (written: nat)
      requires k in files
      modifies this
      ensures written <= |data|
      ensures files == old(files)[k := Overwrite(old(files)[k], data[..written])]
    {
      written :| written <= |data|;
      files := files[k := Overwrite(files[k], data[..written])];
    }
  }
}

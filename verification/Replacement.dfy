/**
 * Replacing a small file as a whole: the new text goes to a temporary file, is synced and made
 * private, and then renamed over the old one (src/persistence/security-state.ts and
 * src/memory/store.ts do this alike).
 */
module Replacement {
  import opened Text

  datatype Disk = Disk(main: Option<Str>, tmp: Option<Str>)

  /** The point at which a replacement breaks off, by an error or because the machine stops. */
  datatype Stage = OpenTmp | WriteTmp(landed: nat) | SyncTmp | ChmodTmp | RenameTmp
  datatype Break = Smooth | BreaksAt(stage: Stage)

  /** Whatever is left of the temporary file, the file itself holds the old text or the whole new one. */
  function DiskAfter(disk: Disk, payload: Str, b: Break): (d: Disk)
    ensures d.main == if b.Smooth? then Some(payload) else disk.main
  {
    match b
    case Smooth => Disk(Some(payload), None)
    case BreaksAt(OpenTmp) => disk
    case BreaksAt(WriteTmp(landed)) => disk.(tmp := Some(if landed < |payload| then payload[..landed] else payload))
    case BreaksAt(_) => disk.(tmp := Some(payload))
  }
}

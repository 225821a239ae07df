/** The `Video` entity and the row it is stored as. */
module Models {
  import opened Js

  /** One row of the `videos` table. knex writes a `Video` object as the row of its
      four own properties, and reads rows back as plain values. */
  datatype Row = Row(id: string, title: string, duration: int, upload: string)

  /** A video: four private fields, a getter and a setter for each. */
  class Video {
    var id: string
    var title: string
    var duration: int
    var upload: string

    /** `upload` is optional; when it is omitted the constructor reads the clock,
        whose reading is passed in as `now`. */
    constructor (id: string, title: string, duration: int, upload: Option<string>, now: string)
      ensures GetId() == id && GetTitle() == title && GetDuration() == duration
      ensures upload.Some? ==> GetUpload() == upload.value
      ensures upload.None? ==> GetUpload() == now
    {
      this.id := id;
      this.title := title;
      this.duration := duration;
      this.upload := if upload.Some? then upload.value else now;
    }

    function GetId(): string reads this { id }
    function GetTitle(): string reads this { title }
    function GetDuration(): int reads this { duration }
    function GetUpload(): string reads this { upload }

    /** The row knex writes for this object. */
    function Snapshot(): Row reads this
    {
      Row(id, title, duration, upload)
    }

    method SetId(newId: string)
      modifies this
      ensures GetId() == newId
      ensures Snapshot() == old(Snapshot()).(id := newId)
    {
      id := newId;
    }

    method SetTitle(newTitle: string)
      modifies this
      ensures GetTitle() == newTitle
      ensures Snapshot() == old(Snapshot()).(title := newTitle)
    {
      title := newTitle;
    }

    /** No validation: any duration, negative ones included, is stored. */
    method SetDuration(newDuration: int)
      modifies this
      ensures GetDuration() == newDuration
      ensures Snapshot() == old(Snapshot()).(duration := newDuration)
    {
      duration := newDuration;
    }

    method SetUpload(newUpload: string)
      modifies this
      ensures GetUpload() == newUpload
      ensures Snapshot() == old(Snapshot()).(upload := newUpload)
    {
      upload := newUpload;
    }
  }
}

/** The four `/videos` handlers, step by step: each keeps the response status it has
    set so far, stops at the first thing it throws, and hands that to the shared catch
    block. The `videos` table is a field that the handlers read and reassign. */
module Service {
  import opened Js
  import opened Models
  import opened Http
  import opened Rules

  class VideoService {
    var videos: Table

    ghost predicate Valid()
      reads this
    {
      WellKeyed(videos)
    }

    constructor (initial: Table)
      requires WellKeyed(initial)
      ensures Valid() && videos == initial
    {
      videos := initial;
    }

    /** GET /videos: one `Video` per row, each built from its row's four columns. Rows
        come in whatever order the table yields them. */
    method GetVideos(reqStatus: Option<int>, fault: Fault, now: string) returns (response: Response)
      requires Valid()
      ensures Throws(fault, 0) ==> response == CatchResponse(DefaultStatus, reqStatus, fault.thrown)
      ensures !Throws(fault, 0) ==> response.status == 200 && response.body.VideoList?
      ensures !Throws(fault, 0) ==>
                var list := response.body.videos;
                && |list| == |videos|
                && (forall i :: 0 <= i < |list| ==> list[i].id in videos && videos[list[i].id] == list[i].Snapshot())
                && (forall i, j :: 0 <= i < j < |list| ==> list[i].id != list[j].id)
                && (forall k :: k in videos ==> exists i :: 0 <= i < |list| && list[i].id == k)
    {
      if Throws(fault, 0) {
        response := CatchResponse(DefaultStatus, reqStatus, fault.thrown);
        return;
      }
      var list: seq<Video> := [];
      ghost var ids: seq<string> := [];
      var rest := videos.Keys;
      while rest != {}
        invariant rest <= videos.Keys
        invariant |list| == |ids| && |ids| + |rest| == |videos|
        invariant forall i :: 0 <= i < |ids| ==> ids[i] in videos && ids[i] !in rest
        invariant forall i :: 0 <= i < |list| ==> list[i].id == ids[i] && videos[ids[i]] == list[i].Snapshot()
        invariant forall i, j :: 0 <= i < j < |ids| ==> ids[i] != ids[j]
        invariant forall k :: k in videos && k !in rest ==> k in ids
        decreases rest
      {
        var k :| k in rest;
        var row := videos[k];
        var video := new Video(row.id, row.title, row.duration, Some(row.upload), now);
        list, ids := list + [video], ids + [k];
        rest := rest - {k};
      }
      forall k | k in videos
        ensures exists i :: 0 <= i < |list| && list[i].id == k
      {
        var i :| 0 <= i < |ids| && ids[i] == k;
        assert list[i].id == k;
      }
      response := Response(200, VideoList(list));
    }

    /** POST /videos. */
    method PostVideo(body: map<string, JsValue>, reqStatus: Option<int>, fault: Fault, now: string)
      returns (response: Response)
      requires Valid()
      modifies this
      ensures Valid()
      ensures Outcome(response, videos) == CreateRule(old(videos), body, reqStatus, fault, now)
    {
      var status := DefaultStatus;
      var thrown: Option<Thrown> := None;
      response := Response(status, Message(""));
      var id, title, duration := Field(body, "id"), Field(body, "title"), Field(body, "duration");
      if TypeOf(id) != "string" {
        status, thrown := 400, Some(ErrorObj(IdNotString));
      } else if TypeOf(title) != "string" {
        status, thrown := 400, Some(ErrorObj(TitleNotString));
      } else if TypeOf(duration) != "number" {
        status, thrown := 400, Some(ErrorObj(DurationNotNumber));
      } else if Throws(fault, 0) {
        thrown := Some(fault.thrown);
      } else if id.s in videos {
        status, thrown := 400, Some(ErrorObj(IdExists));
      } else {
        var newVideo := new Video(id.s, title.s, duration.n, None, now);
        if Throws(fault, 1) {
          thrown := Some(fault.thrown);
        } else {
          videos := videos[id.s := newVideo.Snapshot()];
          if Throws(fault, 2) {
            thrown := Some(fault.thrown);
          } else {
            response := Response(201, MessageAndRow(Created, videos[id.s]));
          }
        }
      }
      if thrown.Some? {
        response := CatchResponse(status, reqStatus, thrown.value);
      }
    }

    /** PUT /videos/:id. */
    method PutVideo(id: string, body: map<string, JsValue>, reqStatus: Option<int>, fault: Fault, now: string)
      returns (response: Response)
      requires Valid()
      modifies this
      ensures Valid()
      ensures Outcome(response, videos) == UpdateRule(old(videos), id, body, reqStatus, fault)
    {
      var status := DefaultStatus;
      var thrown: Option<Thrown> := None;
      response := Response(status, Message(""));
      var title, duration := Field(body, "title"), Field(body, "duration");
      if Throws(fault, 0) {
        thrown := Some(fault.thrown);
      } else if id !in videos {
        status, thrown := 404, Some(ErrorObj(IdNotFound));
      } else if !Truthy(title) && !Truthy(duration) {
        status, thrown := 400, Some(ErrorObj(NothingToUpdate));
      } else if title != JUndefined && TypeOf(title) != "string" {
        status, thrown := 400, Some(ErrorObj(TitleNotString));
      } else if duration != JUndefined && TypeOf(duration) != "number" {
        status, thrown := 400, Some(ErrorObj(DurationNotNumber));
      } else {
        var videoToUpdate := videos[id];
        var newTitle := Or(title, JStr(videoToUpdate.title));
        var newDuration := Or(duration, JNum(videoToUpdate.duration));
        var video := new Video(videoToUpdate.id, videoToUpdate.title, videoToUpdate.duration,
                               Some(videoToUpdate.upload), now);
        video.SetTitle(newTitle.s);
        video.SetDuration(newDuration.n);
        if Throws(fault, 1) {
          thrown := Some(fault.thrown);
        } else {
          videos := videos[id := video.Snapshot()];
          response := Response(200, MessageAndRow(Updated, video.Snapshot()));
        }
      }
      if thrown.Some? {
        response := CatchResponse(status, reqStatus, thrown.value);
      }
    }

    /** DELETE /videos/:id. */
    method DeleteVideo(id: string, reqStatus: Option<int>, fault: Fault) returns (response: Response)
      requires Valid()
      modifies this
      ensures Valid()
      ensures Outcome(response, videos) == DeleteRule(old(videos), id, reqStatus, fault)
    {
      var status := DefaultStatus;
      var thrown: Option<Thrown> := None;
      response := Response(status, Message(""));
      if Throws(fault, 0) {
        thrown := Some(fault.thrown);
      } else if id !in videos {
        status, thrown := 404, Some(ErrorObj(IdNotFound));
      } else if Throws(fault, 1) {
        thrown := Some(fault.thrown);
      } else {
        videos := videos - {id};
        response := Response(200, Message(Deleted));
      }
      if thrown.Some? {
        response := CatchResponse(status, reqStatus, thrown.value);
      }
    }
  }
}
